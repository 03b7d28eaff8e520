/**
 * The string-valued fields of a contact (bot.py, classes Field, Name, Phone
 * and Birthday). A field is modelled by its string value: a Name is any
 * string, a Phone a string that passed `Phone.validate`, a Birthday a string
 * that passed `Birthday.validate`. Construction that fails validation raises
 * ValueError and yields no object; here it yields `Failure`.
 */
module Fields {
  import opened Wrappers
  import opened Exceptions

  const INVALID_PHONE_MESSAGE := "Invalid phone number"
  const INVALID_BIRTHDAY_MESSAGE := "Invalid birthday format. Use DD.MM.YYYY"

  // ---------------------------------------------------------------------------
  // Phone
  // ---------------------------------------------------------------------------

  predicate IsDigit(c: char) {
    '0' <= c <= '9'
  }

  /** Every character is a digit, checked one character at a time. */
  predicate AllDigits(s: string) {
    s == [] || (IsDigit(s[0]) && AllDigits(s[1..]))
  }

  /** `str.isdigit()`: true of a non-empty string of digits. */
  predicate IsDigitString(s: string) {
    |s| > 0 && AllDigits(s)
  }

  /** `Phone.validate`: exactly ten characters, all of them digits. */
  predicate ValidPhone(s: string) {
    |s| == 10 && IsDigitString(s)
  }

  lemma {:induction false} AllDigitsIff(s: string)
    ensures AllDigits(s) <==> forall i :: 0 <= i < |s| ==> IsDigit(s[i])
  {
    if s != [] {
      AllDigitsIff(s[1..]);
      assert forall i :: 1 <= i < |s| ==> s[i] == s[1..][i - 1];
    }
  }

  /**
   * `Phone(value)`: succeeds, holding the value unchanged, exactly when the
   * value is ten digits; otherwise raises ValueError("Invalid phone number").
   */
  function NewPhone(s: string): (r: Result<string, Error>)
    ensures r.Success? <==> |s| == 10 && forall i :: 0 <= i < |s| ==> IsDigit(s[i])
    ensures r.Success? ==> r.value == s
    ensures r.Failure? ==> r.error == ValueError(INVALID_PHONE_MESSAGE)
  {
    AllDigitsIff(s);
    if ValidPhone(s) then Success(s) else Failure(ValueError(INVALID_PHONE_MESSAGE))
  }

  // ---------------------------------------------------------------------------
  // Birthday: a DD.MM.YYYY calendar date
  // ---------------------------------------------------------------------------

  datatype Date = Date(day: nat, month: nat, year: nat)

  predicate IsLeapYear(y: nat) {
    y % 4 == 0 && (y % 100 != 0 || y % 400 == 0)
  }

  function DaysInMonth(month: nat, year: nat): nat
    requires 1 <= month <= 12
  {
    if month == 2 then (if IsLeapYear(year) then 29 else 28)
    else if month == 4 || month == 6 || month == 9 || month == 11 then 30
    else 31
  }

  /** A day of the proleptic Gregorian calendar in the years 1 to 9999. */
  predicate ValidDate(d: Date) {
    && 1 <= d.year <= 9999
    && 1 <= d.month <= 12
    && 1 <= d.day <= DaysInMonth(d.month, d.year)
  }

  function DigitValue(c: char): nat
    requires IsDigit(c)
  {
    c as int - '0' as int
  }

  function DigitChar(n: nat): char
    requires n < 10
  {
    ('0' as int + n) as char
  }

  /** The value of a run of decimal digits. */
  function Number(s: string): nat
    requires forall i :: 0 <= i < |s| ==> IsDigit(s[i])
  {
    if s == [] then 0 else 10 * Number(s[..|s| - 1]) + DigitValue(s[|s| - 1])
  }

  /** `n` written with exactly `width` digits, leading zeros included. */
  function Digits(n: nat, width: nat): (r: string)
    ensures |r| == width
    ensures forall i :: 0 <= i < |r| ==> IsDigit(r[i])
  {
    if width == 0 then [] else Digits(n / 10, width - 1) + [DigitChar(n % 10)]
  }

  function Pow10(k: nat): (r: nat)
    ensures r > 0
  {
    if k == 0 then 1 else 10 * Pow10(k - 1)
  }

  lemma {:induction false} NumberOfDigits(n: nat, width: nat)
    requires n < Pow10(width)
    ensures Number(Digits(n, width)) == n
  {
    if width > 0 {
      var r := Digits(n, width);
      NumberOfDigits(n / 10, width - 1);
      assert r[..|r| - 1] == Digits(n / 10, width - 1);
    }
  }

  lemma {:induction false} DigitsOfNumber(s: string)
    requires forall i :: 0 <= i < |s| ==> IsDigit(s[i])
    ensures Number(s) < Pow10(|s|)
    ensures Digits(Number(s), |s|) == s
  {
    if s != [] {
      var init, last := s[..|s| - 1], s[|s| - 1];
      DigitsOfNumber(init);
      var n := Number(s);
      assert n / 10 == Number(init) && n % 10 == DigitValue(last);
      assert DigitChar(DigitValue(last)) == last;
      assert s == init + [last];
    }
  }

  /** The fixed DD.MM.YYYY layout: digits everywhere except the two dots. */
  predicate DateShaped(s: string) {
    && |s| == 10
    && s[2] == '.' && s[5] == '.'
    && (forall i :: 0 <= i < 2 ==> IsDigit(s[i]))
    && (forall i :: 3 <= i < 5 ==> IsDigit(s[i]))
    && (forall i :: 6 <= i < 10 ==> IsDigit(s[i]))
  }

  /** The calendar date a DD.MM.YYYY string denotes, when it denotes one. */
  function ParseDate(s: string): Option<Date>
  {
    if DateShaped(s) then
      var d := Date(Number(s[0..2]), Number(s[3..5]), Number(s[6..10]));
      if ValidDate(d) then Some(d) else None
    else None
  }

  /** A date rendered as DD.MM.YYYY. */
  function FormatDate(d: Date): (r: string)
    ensures |r| == 10
  {
    Digits(d.day, 2) + "." + Digits(d.month, 2) + "." + Digits(d.year, 4)
  }

  /** `Birthday.validate` with the date format "%d.%m.%Y". */
  predicate ValidBirthday(s: string) {
    ParseDate(s).Some?
  }

  /** Rendering a valid date and parsing it back gives the same date. */
  lemma ParseFormat(d: Date)
    requires ValidDate(d)
    ensures ParseDate(FormatDate(d)) == Some(d)
  {
    var s := FormatDate(d);
    assert s[0..2] == Digits(d.day, 2);
    assert s[3..5] == Digits(d.month, 2);
    assert s[6..10] == Digits(d.year, 4);
    NumberOfDigits(d.day, 2);
    NumberOfDigits(d.month, 2);
    NumberOfDigits(d.year, 4);
  }

  /** Every string the validator accepts is the rendering of the date it denotes. */
  lemma FormatParse(s: string)
    requires ValidBirthday(s)
    ensures ValidDate(ParseDate(s).value)
    ensures FormatDate(ParseDate(s).value) == s
  {
    DigitsOfNumber(s[0..2]);
    DigitsOfNumber(s[3..5]);
    DigitsOfNumber(s[6..10]);
    assert s == s[0..2] + "." + s[3..5] + "." + s[6..10];
  }

  /** The validator accepts exactly the DD.MM.YYYY renderings of calendar dates. */
  lemma ValidBirthdayIff(s: string)
    ensures ValidBirthday(s) <==> exists d :: ValidDate(d) && FormatDate(d) == s
  {
    if ValidBirthday(s) {
      FormatParse(s);
    }
    if exists d :: ValidDate(d) && FormatDate(d) == s {
      var d :| ValidDate(d) && FormatDate(d) == s;
      ParseFormat(d);
    }
  }

  /**
   * `Birthday(date_string)`: succeeds, holding the string unchanged, exactly
   * when the string is the DD.MM.YYYY rendering of a calendar date; otherwise
   * raises ValueError("Invalid birthday format. Use DD.MM.YYYY").
   */
  function NewBirthday(s: string): (r: Result<string, Error>)
    ensures r.Success? <==> ValidBirthday(s)
    ensures r.Success? <==> exists d :: ValidDate(d) && FormatDate(d) == s
    ensures r.Success? ==> r.value == s
    ensures r.Failure? ==> r.error == ValueError(INVALID_BIRTHDAY_MESSAGE)
  {
    ValidBirthdayIff(s);
    if ValidBirthday(s) then Success(s) else Failure(ValueError(INVALID_BIRTHDAY_MESSAGE))
  }

  /** The value of a two-digit field. */
  lemma NumberOfTwo(s: string)
    requires |s| == 2 && IsDigit(s[0]) && IsDigit(s[1])
    ensures Number(s) == 10 * DigitValue(s[0]) + DigitValue(s[1])
  {
    var a := s[..1];
    assert a[..0] == [];
    assert Number(a) == DigitValue(s[0]);
  }

  /** The value of a four-digit field. */
  lemma NumberOfFour(s: string)
    requires |s| == 4 && forall i :: 0 <= i < 4 ==> IsDigit(s[i])
    ensures Number(s) == 1000 * DigitValue(s[0]) + 100 * DigitValue(s[1]) + 10 * DigitValue(s[2]) + DigitValue(s[3])
  {
    var a, b, c := s[..3], s[..3][..2], s[..3][..2][..1];
    assert c[..0] == [];
    assert Number(c) == DigitValue(s[0]);
    assert Number(b) == 10 * DigitValue(s[0]) + DigitValue(s[1]);
    assert Number(a) == 10 * Number(b) + DigitValue(s[2]);
  }

  /** 29 February is accepted in a leap year ... */
  lemma LeapDayAccepted()
    ensures ParseDate("29.02.2024") == Some(Date(29, 2, 2024))
  {
    var s := "29.02.2024";
    NumberOfTwo(s[0..2]);
    NumberOfTwo(s[3..5]);
    NumberOfFour(s[6..10]);
  }

  /** ... and rejected in a common year. */
  lemma LeapDayRejectedInCommonYear()
    ensures !ValidBirthday("29.02.2023")
  {
    var s := "29.02.2023";
    NumberOfTwo(s[0..2]);
    NumberOfTwo(s[3..5]);
    NumberOfFour(s[6..10]);
  }

  /**
   * `Birthday(date_string)` as bot.py is written: `validate` calls
   * `datetime.strptime`, but the module never imports `datetime`, so the
   * lookup raises NameError, which the `except ValueError` does not catch.
   */
  function NewBirthdayAsWritten(s: string): (r: Result<string, Error>)
    ensures r.Failure? && r.error.NameError?
  {
    Failure(NameError("datetime"))
  }

  /** A calendar date that the intended validator accepts and the code as written rejects. */
  lemma MissingImportRejectsValidDate()
    ensures NewBirthday("01.01.2000").Success?
    ensures NewBirthdayAsWritten("01.01.2000").Failure?
  {
    var d := Date(1, 1, 2000);
    assert FormatDate(d) == "01.01.2000";
  }
}
