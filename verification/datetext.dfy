/**
 * Birthday date canonicalisation: `strptime(text, '%m/%d')` followed by
 * `strftime('%m/%d')`.
 *
 * `%m` matches the first of the alternatives 1[0-2], 0[1-9], [1-9]; `%d`
 * the first of 3[01], [12]<digit>, 0[1-9], [1-9], <space>[1-9]; the whole
 * text must be consumed. The parsed day must exist in the default year 1900,
 * which is not a leap year, so 02/29 is refused. The stored text is always a
 * zero-padded "MM/DD", which is what lets the scheduler match dates by plain
 * text equality.
 */
module DateText {
  import opened Wrappers
  import opened TextUtil

  /** Days in each month of the year 1900. */
  function DaysInMonth(month: int): (n: int)
    requires 1 <= month <= 12
    ensures 28 <= n <= 31
  {
    if month == 2 then 28
    else if month == 4 || month == 6 || month == 9 || month == 11 then 30
    else 31
  }

  predicate ValidDate(month: int, day: int) {
    1 <= month <= 12 && 1 <= day <= DaysInMonth(month)
  }

  /** A matched directive: its numeric value and how many characters it used. */
  datatype Token = Token(value: int, length: nat)

  /** The `%m` directive at the start of `s`, first matching alternative. */
  function MatchMonth(s: string): (r: Option<Token>)
    ensures r.Some? ==> 1 <= r.value.value <= 12 && 1 <= r.value.length <= 2 && r.value.length <= |s|
  {
    if |s| >= 2 && s[0] == '1' && '0' <= s[1] <= '2' then Some(Token(10 + DigitValue(s[1]), 2))
    else if |s| >= 2 && s[0] == '0' && '1' <= s[1] <= '9' then Some(Token(DigitValue(s[1]), 2))
    else if |s| >= 1 && '1' <= s[0] <= '9' then Some(Token(DigitValue(s[0]), 1))
    else None
  }

  /** The `%d` directive at the start of `s`, first matching alternative. */
  function MatchDay(s: string): (r: Option<Token>)
    ensures r.Some? ==> 1 <= r.value.value <= 31 && 1 <= r.value.length <= 2 && r.value.length <= |s|
  {
    if |s| >= 2 && s[0] == '3' && (s[1] == '0' || s[1] == '1') then Some(Token(30 + DigitValue(s[1]), 2))
    else if |s| >= 2 && (s[0] == '1' || s[0] == '2') && IsDigit(s[1]) then
      Some(Token(10 * DigitValue(s[0]) + DigitValue(s[1]), 2))
    else if |s| >= 2 && s[0] == '0' && '1' <= s[1] <= '9' then Some(Token(DigitValue(s[1]), 2))
    else if |s| >= 1 && '1' <= s[0] <= '9' then Some(Token(DigitValue(s[0]), 1))
    else if |s| >= 2 && s[0] == ' ' && '1' <= s[1] <= '9' then Some(Token(DigitValue(s[1]), 2))
    else None
  }

  /** The month and day read by the pattern '%m/%d', if the whole text matches. */
  function ParseMonthDay(s: string): Option<(int, int)>
  {
    match MatchMonth(s)
    case None => None
    case Some(m) =>
      if m.length < |s| && s[m.length] == '/' then
        match MatchDay(s[m.length + 1..])
        case None => None
        case Some(d) => if m.length + 1 + d.length == |s| then Some((m.value, d.value)) else None
      else None
  }

  /** `strftime('%m/%d')` of a valid date. */
  function FormatDate(month: int, day: int): (s: string)
    requires ValidDate(month, day)
    ensures |s| == 5 && s[2] == '/'
  {
    Pad2(month) + "/" + Pad2(day)
  }

  /** The stored form of a birthday typed as `s`, or None when the command refuses it. */
  function CanonicalDate(s: string): (r: Option<string>)
    ensures r.Some? ==> |r.value| == 5 && r.value[2] == '/'
  {
    match ParseMonthDay(s)
    case None => None
    case Some((month, day)) =>
      if day <= DaysInMonth(month) then Some(FormatDate(month, day)) else None
  }

  // Declarative description of the texts the pattern accepts.

  /** The spellings `%m` accepts for `month`: "4", "04", "12". */
  predicate IsMonthText(a: string, month: int) {
    || (1 <= month <= 9 && (a == [DigitChar(month)] || a == ['0', DigitChar(month)]))
    || (10 <= month <= 12 && a == ['1', DigitChar(month - 10)])
  }

  /** The spellings `%d` accepts for `day`: "5", "05", " 5", "23". */
  predicate IsDayText(b: string, day: int) {
    || (1 <= day <= 9 && (b == [DigitChar(day)] || b == ['0', DigitChar(day)] || b == [' ', DigitChar(day)]))
    || (10 <= day <= 31 && b == [DigitChar(day / 10), DigitChar(day % 10)])
  }

  /** `s` spells month `month` and day `day` as "<month>/<day>". */
  predicate IsDateText(s: string, month: int, day: int) {
    exists k :: 0 <= k < |s| && s[k] == '/' && IsMonthText(s[..k], month) && IsDayText(s[k + 1..], day)
  }

  lemma MatchMonthSound(s: string)
    requires MatchMonth(s).Some?
    ensures IsMonthText(s[..MatchMonth(s).value.length], MatchMonth(s).value.value)
  {
    var t := MatchMonth(s).value;
    if t.length == 2 {
      assert s[..2] == [s[0], s[1]];
    } else {
      assert s[..1] == [s[0]];
    }
  }

  lemma MatchMonthComplete(a: string, rest: string, month: int)
    requires IsMonthText(a, month) && |rest| > 0 && rest[0] == '/'
    ensures MatchMonth(a + rest) == Some(Token(month, |a|))
  {
  }

  lemma MatchDaySound(b: string)
    requires MatchDay(b).Some? && MatchDay(b).value.length == |b|
    ensures IsDayText(b, MatchDay(b).value.value)
  {
    var t := MatchDay(b).value;
    if t.length == 2 {
      assert b == [b[0], b[1]];
    } else {
      assert b == [b[0]];
    }
  }

  lemma MatchDayComplete(b: string, day: int)
    requires IsDayText(b, day)
    ensures MatchDay(b) == Some(Token(day, |b|))
  {
  }

  /** Every text the command accepts spells a valid date, and is stored as that date. */
  lemma AcceptedTextIsDate(s: string)
    requires CanonicalDate(s).Some?
    ensures exists month, day :: ValidDate(month, day) && IsDateText(s, month, day)
                                 && CanonicalDate(s) == Some(FormatDate(month, day))
  {
    var m := MatchMonth(s).value;
    var d := MatchDay(s[m.length + 1..]).value;
    MatchMonthSound(s);
    MatchDaySound(s[m.length + 1..]);
    assert IsDateText(s, m.value, d.value);
  }

  /** Every spelling of a valid date is accepted and stored in canonical form. */
  lemma DateTextAccepted(s: string, month: int, day: int)
    requires ValidDate(month, day) && IsDateText(s, month, day)
    ensures CanonicalDate(s) == Some(FormatDate(month, day))
  {
    var k :| 0 <= k < |s| && s[k] == '/' && IsMonthText(s[..k], month) && IsDayText(s[k + 1..], day);
    ParseSplitDate(s, k, month, day);
  }

  /** A month text, "/" and a day text parse to that month and day. */
  lemma ParseSplitDate(s: string, k: int, month: int, day: int)
    requires 0 <= k < |s| && s[k] == '/' && IsMonthText(s[..k], month) && IsDayText(s[k + 1..], day)
    ensures ParseMonthDay(s) == Some((month, day))
  {
    var a, rest := s[..k], s[k..];
    assert s == a + rest;
    MatchMonthComplete(a, rest, month);
    assert MatchMonth(s) == Some(Token(month, k));
    MatchDayComplete(s[k + 1..], day);
  }

  /** A spelling of a day the month does not have (02/29, 04/31) is refused. */
  lemma NonexistentDayRefused(s: string, month: int, day: int)
    requires IsDateText(s, month, day) && !ValidDate(month, day)
    ensures CanonicalDate(s).None?
  {
    var k :| 0 <= k < |s| && s[k] == '/' && IsMonthText(s[..k], month) && IsDayText(s[k + 1..], day);
    assert s == s[..k] + s[k..];
    MatchMonthComplete(s[..k], s[k..], month);
    MatchDayComplete(s[k + 1..], day);
  }

  /** The input is accepted exactly when it spells a date that exists in 1900. */
  lemma DateAcceptance(s: string)
    ensures CanonicalDate(s).Some? <==> exists month, day :: ValidDate(month, day) && IsDateText(s, month, day)
  {
    if CanonicalDate(s).Some? {
      AcceptedTextIsDate(s);
    }
    if exists month, day :: ValidDate(month, day) && IsDateText(s, month, day) {
      var month, day :| ValidDate(month, day) && IsDateText(s, month, day);
      DateTextAccepted(s, month, day);
    }
  }

  /** The canonical form spells its own date. */
  lemma FormatDateIsDateText(month: int, day: int)
    requires ValidDate(month, day)
    ensures IsDateText(FormatDate(month, day), month, day)
  {
    var s := FormatDate(month, day);
    assert s[..2] == Pad2(month) && s[3..] == Pad2(day);
  }

  /** Canonicalising a stored date changes nothing. */
  lemma CanonicalIdempotent(s: string)
    requires CanonicalDate(s).Some?
    ensures CanonicalDate(CanonicalDate(s).value) == CanonicalDate(s)
  {
    AcceptedTextIsDate(s);
    var month, day :| ValidDate(month, day) && IsDateText(s, month, day)
                      && CanonicalDate(s) == Some(FormatDate(month, day));
    FormatDateIsDateText(month, day);
    DateTextAccepted(FormatDate(month, day), month, day);
  }

  /** Different dates have different stored texts, so text equality is date equality. */
  lemma FormatDateInjective(m1: int, d1: int, m2: int, d2: int)
    requires ValidDate(m1, d1) && ValidDate(m2, d2)
    requires FormatDate(m1, d1) == FormatDate(m2, d2)
    ensures m1 == m2 && d1 == d2
  {
    assert FormatDate(m1, d1)[..2] == Pad2(m1) && FormatDate(m2, d2)[..2] == Pad2(m2);
    assert FormatDate(m1, d1)[3..] == Pad2(d1) && FormatDate(m2, d2)[3..] == Pad2(d2);
    Pad2Injective(m1, m2);
    Pad2Injective(d1, d2);
  }

  /** 29 February does not exist in the default year 1900. */
  lemma LeapDayRefused()
    ensures CanonicalDate("02/29").None?
    ensures CanonicalDate("2/28") == Some("02/28")
  {
    assert IsDateText("02/29", 2, 29) by {
      assert "02/29"[..2] == "02" && "02/29"[3..] == "29";
    }
    NonexistentDayRefused("02/29", 2, 29);
    assert IsDateText("2/28", 2, 28) by {
      assert "2/28"[..1] == "2" && "2/28"[2..] == "28";
    }
    DateTextAccepted("2/28", 2, 28);
    assert FormatDate(2, 28) == "02/28";
  }
}
