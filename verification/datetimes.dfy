/**
 * System.DateTime at whole-second resolution, written and read in the
 * invariant culture's general pattern "MM/dd/yyyy HH:mm:ss".
 */
module DateTimes {
  import opened Wrappers
  import opened Numerals

  datatype DateTime = DateTime(year: int, month: int, day: int, hour: int, minute: int, second: int)

  predicate IsLeapYear(y: int) {
    y % 4 == 0 && (y % 100 != 0 || y % 400 == 0)
  }

  function DaysInMonth(y: int, m: int): (n: int)
    requires 1 <= m <= 12
    ensures 28 <= n <= 31
  {
    if m == 2 then (if IsLeapYear(y) then 29 else 28)
    else if m == 4 || m == 6 || m == 9 || m == 11 then 30
    else 31
  }

  /** A calendar date and time of day in the range DateTime can represent. */
  predicate Valid(d: DateTime) {
    && 1 <= d.year <= 9999
    && 1 <= d.month <= 12
    && 1 <= d.day <= DaysInMonth(d.year, d.month)
    && 0 <= d.hour < 24
    && 0 <= d.minute < 60
    && 0 <= d.second < 60
  }

  /** The DateTime values this model handles. */
  type ClrDateTime = d: DateTime | Valid(d) witness DateTime(1, 1, 1, 0, 0, 0)

  /** `default(DateTime)`, i.e. DateTime.MinValue: 01/01/0001 00:00:00. */
  const MinValue: ClrDateTime := DateTime(1, 1, 1, 0, 0, 0)

  lemma DigitPowers()
    ensures Pow(10, 1) == 10 && Pow(10, 2) == 100 && Pow(10, 3) == 1000 && Pow(10, 4) == 10000
  {
    assert Pow(10, 2) == 10 * Pow(10, 1);
    assert Pow(10, 4) == 100 * Pow(10, 2) by {
      assert Pow(10, 4) == 10 * Pow(10, 3);
    }
  }

  /** DateTime.ToString() in the invariant culture. */
  function Format(d: ClrDateTime): (s: string)
    ensures |s| == 19
  {
    DigitPowers();
    Fixed(d.month, 10, 2) + "/" + Fixed(d.day, 10, 2) + "/" + Fixed(d.year, 10, 4) + " "
      + Fixed(d.hour, 10, 2) + ":" + Fixed(d.minute, 10, 2) + ":" + Fixed(d.second, 10, 2)
  }

  /** The number in the `w` characters of `s` starting at `at`, if they are all digits. */
  function NumberAt(s: string, at: nat, w: nat): Option<nat>
    requires at + w <= |s|
  {
    if AllDigits(s[at..at + w], 10) then Some(ValueOf(s[at..at + w], 10)) else None
  }

  /**
   * DateTime parsing of the invariant pattern: two-digit month, day, hour,
   * minute and second, a four-digit year, the separators in place, and a
   * calendar-valid result; anything else is a format error.
   */
  function Parse(s: string): (r: Option<ClrDateTime>)
    ensures r.Some? ==> |s| == 19
  {
    if |s| != 19 || s[2] != '/' || s[5] != '/' || s[10] != ' ' || s[13] != ':' || s[16] != ':' then None
    else
      var month := NumberAt(s, 0, 2);
      var day := NumberAt(s, 3, 2);
      var year := NumberAt(s, 6, 4);
      var hour := NumberAt(s, 11, 2);
      var minute := NumberAt(s, 14, 2);
      var second := NumberAt(s, 17, 2);
      if month.None? || day.None? || year.None? || hour.None? || minute.None? || second.None? then None
      else
        var d := DateTime(year.value, month.value, day.value, hour.value, minute.value, second.value);
        if Valid(d) then Some(d) else None
  }

  /** Reading back what Format writes gives the same date and time. */
  lemma ParseFormat(d: ClrDateTime)
    ensures Parse(Format(d)) == Some(d)
  {
    DigitPowers();
    var s := Format(d);
    assert s[0..2] == Fixed(d.month, 10, 2);
    assert s[3..5] == Fixed(d.day, 10, 2);
    assert s[6..10] == Fixed(d.year, 10, 4);
    assert s[11..13] == Fixed(d.hour, 10, 2);
    assert s[14..16] == Fixed(d.minute, 10, 2);
    assert s[17..19] == Fixed(d.second, 10, 2);
  }

  /** `new DateTime(2000, 1, 1)` is written "01/01/2000 00:00:00". */
  lemma FormatNewYear2000()
    ensures Format(DateTime(2000, 1, 1, 0, 0, 0)) == "01/01/2000 00:00:00"
  {
    NewYear2000Parts();
    NewYear2000Text();
  }

  lemma NewYear2000Text()
    ensures "01" + "/" + "01" + "/" + "2000" + " " + "00" + ":" + "00" + ":" + "00" == "01/01/2000 00:00:00"
  {
  }

  lemma NewYear2000Parts()
    ensures Format(DateTime(2000, 1, 1, 0, 0, 0))
      == "01" + "/" + "01" + "/" + "2000" + " " + "00" + ":" + "00" + ":" + "00"
  {
    NewYear2000Fields();
  }

  lemma NewYear2000Fields()
    ensures Pow(10, 2) == 100 && Pow(10, 4) == 10000
    ensures Fixed(0, 10, 2) == "00" && Fixed(1, 10, 2) == "01"
    ensures Fixed(2000, 10, 4) == "2000"
  {
    DigitPowers();
    ZeroAndOneText();
    YearText();
  }

  lemma ZeroAndOneText()
    ensures Pow(10, 2) == 100
    ensures Fixed(0, 10, 2) == "00" && Fixed(1, 10, 2) == "01"
  {
    DigitPowers();
  }

  lemma YearText()
    ensures Pow(10, 4) == 10000
    ensures Fixed(2000, 10, 4) == "2000"
  {
    DigitPowers();
    Text200();
  }

  lemma Text200()
    ensures Pow(10, 3) == 1000
    ensures Fixed(200, 10, 3) == "200"
  {
    DigitPowers();
    Text20();
  }

  lemma Text20()
    ensures Pow(10, 2) == 100
    ensures Fixed(20, 10, 2) == "20"
  {
    DigitPowers();
    Text2();
  }

  lemma Text2()
    ensures Pow(10, 1) == 10
    ensures Fixed(2, 10, 1) == "2"
  {
    assert DigitChars[2] == '2';
  }
}
