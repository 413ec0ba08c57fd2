/** The timestamped file name the upload path gives every accepted file:
    `YYYY-MM-DD-HHMMSS-<field>`, built from the local wall-clock reading
    and the multipart field name. */
module RenameFile {
  import opened Wrappers
  import opened Strings
  import opened Decimal

  /** A local wall-clock reading as `Date` reports it: the full year, the
      zero-based month, the day of the month, hours, minutes and seconds.
      The clock itself is not modelled; the reading is an input. */
  datatype LocalTime = LocalTime(year: int, month0: nat, day: nat, hours: nat, minutes: nat, seconds: nat)

  /** The ranges `Date`'s getters return. */
  predicate ValidTime(t: LocalTime) {
    t.month0 <= 11 && 1 <= t.day <= 31 && t.hours <= 23 && t.minutes <= 59 && t.seconds <= 59
  }

  /** The template `${year}-${month}-${day}-${hours}${minutes}${seconds}-${field}`
      over already rendered pieces: hours, minutes and seconds run together. */
  function Template(year: string, month: string, day: string, hours: string, minutes: string,
                    seconds: string, fieldname: string): string
  {
    year + "-" + month + "-" + day + "-" + hours + minutes + seconds + "-" + fieldname
  }

  /** `getFormattedLocalTime`: the year unpadded, the one-based month and
      the other components each padded to two digits, and the field name. */
  function FormattedLocalTime(t: LocalTime, fieldname: string): string
  {
    Template(IntToString(t.year), Pad2(t.month0 + 1), Pad2(t.day),
             Pad2(t.hours), Pad2(t.minutes), Pad2(t.seconds), fieldname)
  }

  // ---------------------------------------------------------------------
  // Reading a name back
  // ---------------------------------------------------------------------

  /** Reads `MM-DD-HHMMSS-<field>` back into a reading in `year`. */
  function ParseClock(year: int, rest: string): Option<(LocalTime, string)>
  {
    if |rest| < 13 || rest[2] != '-' || rest[5] != '-' || rest[12] != '-' then None
    else
      match (TwoDigits(rest[0], rest[1]), TwoDigits(rest[3], rest[4]),
             TwoDigits(rest[6], rest[7]), TwoDigits(rest[8], rest[9]), TwoDigits(rest[10], rest[11]))
      case (Some(month), Some(day), Some(h), Some(m), Some(sec)) =>
        if month == 0 then None else Some((LocalTime(year, month - 1, day, h, m, sec), rest[13..]))
      case _ => None
  }

  /** The year a sign and a magnitude denote. */
  function SignedYear(negative: bool, magnitude: nat): int {
    if negative then -(magnitude as int) else magnitude
  }

  /** Reads `<digits>-<rest>` into the year's magnitude and the rest. */
  function SplitYear(body: string): Option<(nat, string)>
  {
    match FirstIndexOf(body, '-')
    case None => None
    case Some(k) =>
      if k == 0 || !AllDigits(body[..k]) then None
      else Some((ParseDigits(body[..k]), body[k + 1..]))
  }

  /** Reads a name written by `FormattedLocalTime` back into its reading and
      field name; `None` for text of any other shape. */
  function ParseFormattedName(s: string): Option<(LocalTime, string)>
  {
    var negative := |s| > 0 && s[0] == '-';
    match SplitYear(if negative then s[1..] else s)
    case None => None
    case Some((y, rest)) => ParseClock(SignedYear(negative, y), rest)
  }

  lemma ParseClockText(year: int, mm: string, dd: string, hh: string, mi: string, ss: string, f: string,
                       month: nat, day: nat, h: nat, m: nat, sec: nat)
    requires |mm| == 2 && |dd| == 2 && |hh| == 2 && |mi| == 2 && |ss| == 2
    requires TwoDigits(mm[0], mm[1]) == Some(month) && month >= 1
    requires TwoDigits(dd[0], dd[1]) == Some(day)
    requires TwoDigits(hh[0], hh[1]) == Some(h)
    requires TwoDigits(mi[0], mi[1]) == Some(m)
    requires TwoDigits(ss[0], ss[1]) == Some(sec)
    ensures ParseClock(year, mm + "-" + dd + "-" + hh + mi + ss + "-" + f)
            == Some((LocalTime(year, month - 1, day, h, m, sec), f))
  {
    var p := mm + "-" + dd + "-" + hh + mi + ss + "-";
    var rest := p + f;
    assert rest[..13] == p;
    assert rest[13..] == f;
    assert p[0] == mm[0] && p[1] == mm[1] && p[2] == '-';
    assert p[3] == dd[0] && p[4] == dd[1] && p[5] == '-';
    assert p[6] == hh[0] && p[7] == hh[1];
    assert p[8] == mi[0] && p[9] == mi[1];
    assert p[10] == ss[0] && p[11] == ss[1] && p[12] == '-';
  }

  lemma SplitYearOf(digits: string, rest: string)
    requires |digits| >= 1 && AllDigits(digits)
    ensures SplitYear(digits + "-" + rest) == Some((ParseDigits(digits), rest))
  {
    var body := digits + "-" + rest;
    assert body[..|digits|] == digits;
    FirstIndexOfUnique(body, '-', |digits|);
    assert body[|digits| + 1..] == rest;
  }

  lemma ParseNegativeYearOf(digits: string, rest: string)
    requires |digits| >= 1 && AllDigits(digits)
    ensures ParseFormattedName(("-" + digits) + "-" + rest)
            == ParseClock(SignedYear(true, ParseDigits(digits)), rest)
  {
    var body := digits + "-" + rest;
    SignedText(digits, rest);
    DropSign(body);
    SplitYearOf(digits, rest);
  }

  lemma SignedText(digits: string, rest: string)
    ensures ("-" + digits) + "-" + rest == "-" + (digits + "-" + rest)
  {
  }

  lemma DropSign(body: string)
    ensures ("-" + body)[0] == '-' && ("-" + body)[1..] == body
  {
  }

  lemma ParseNonNegativeYearOf(digits: string, rest: string)
    requires |digits| >= 1 && AllDigits(digits)
    ensures ParseFormattedName(digits + "-" + rest)
            == ParseClock(SignedYear(false, ParseDigits(digits)), rest)
  {
    var body := digits + "-" + rest;
    SplitYearOf(digits, rest);
    assert IsDigit(body[0]);
  }

  /** Either sign: the year's text is read back and the rest is handed on. */
  lemma ParseYearOf(negative: bool, digits: string, rest: string)
    requires |digits| >= 1 && AllDigits(digits)
    ensures ParseFormattedName((if negative then "-" else "") + digits + "-" + rest)
            == ParseClock(SignedYear(negative, ParseDigits(digits)), rest)
  {
    if negative {
      ParseNegativeYearOf(digits, rest);
    } else {
      assert (if negative then "-" else "") + digits == digits;
      ParseNonNegativeYearOf(digits, rest);
    }
  }

  lemma TemplateRest(Y: string, mm: string, dd: string, hh: string, mi: string, ss: string, f: string)
    ensures Template(Y, mm, dd, hh, mi, ss, f) == Y + "-" + (mm + "-" + dd + "-" + hh + mi + ss + "-" + f)
  {
  }

  /** `Template` over a signed digit run and five two-digit fields reads back. */
  lemma ParseTemplate(negative: bool, digits: string, mm: string, dd: string, hh: string, mi: string,
                      ss: string, f: string, month: nat, day: nat, h: nat, m: nat, sec: nat)
    requires |digits| >= 1 && AllDigits(digits)
    requires |mm| == 2 && |dd| == 2 && |hh| == 2 && |mi| == 2 && |ss| == 2
    requires TwoDigits(mm[0], mm[1]) == Some(month) && month >= 1
    requires TwoDigits(dd[0], dd[1]) == Some(day)
    requires TwoDigits(hh[0], hh[1]) == Some(h)
    requires TwoDigits(mi[0], mi[1]) == Some(m)
    requires TwoDigits(ss[0], ss[1]) == Some(sec)
    ensures var year := SignedYear(negative, ParseDigits(digits));
            ParseFormattedName(Template((if negative then "-" else "") + digits, mm, dd, hh, mi, ss, f))
            == Some((LocalTime(year, month - 1, day, h, m, sec), f))
  {
    var rest := mm + "-" + dd + "-" + hh + mi + ss + "-" + f;
    var year := SignedYear(negative, ParseDigits(digits));
    TemplateRest((if negative then "-" else "") + digits, mm, dd, hh, mi, ss, f);
    ParseYearOf(negative, digits, rest);
    ParseClockText(year, mm, dd, hh, mi, ss, f, month, day, h, m, sec);
  }

  /** The timestamped name loses nothing: the reading and the field name
      can be recovered from it. */
  lemma FormattedNameRoundTrip(t: LocalTime, fieldname: string)
    requires ValidTime(t)
    ensures ParseFormattedName(FormattedLocalTime(t, fieldname)) == Some((t, fieldname))
  {
    var negative := t.year < 0;
    var y: nat := if negative then -t.year else t.year;
    var digits := NatToString(y);
    assert IntToString(t.year) == (if negative then "-" else "") + digits;
    ParseNatToString(y);
    assert SignedYear(negative, ParseDigits(digits)) == t.year;
    Pad2Digits(t.month0 + 1);
    Pad2Digits(t.day);
    Pad2Digits(t.hours);
    Pad2Digits(t.minutes);
    Pad2Digits(t.seconds);
    TwoDigitsOfPad2(t.month0 + 1);
    TwoDigitsOfPad2(t.day);
    TwoDigitsOfPad2(t.hours);
    TwoDigitsOfPad2(t.minutes);
    TwoDigitsOfPad2(t.seconds);
    ParseTemplate(negative, digits, Pad2(t.month0 + 1), Pad2(t.day), Pad2(t.hours), Pad2(t.minutes),
                  Pad2(t.seconds), fieldname, t.month0 + 1, t.day, t.hours, t.minutes, t.seconds);
  }

  /** Two uploads get the same name exactly when they share the field name
      and the clock reading to the second: nothing finer separates them. */
  lemma SameNameIffSameSecond(t1: LocalTime, f1: string, t2: LocalTime, f2: string)
    requires ValidTime(t1) && ValidTime(t2)
    ensures FormattedLocalTime(t1, f1) == FormattedLocalTime(t2, f2) <==> t1 == t2 && f1 == f2
  {
    if FormattedLocalTime(t1, f1) == FormattedLocalTime(t2, f2) {
      FormattedNameRoundTrip(t1, f1);
      FormattedNameRoundTrip(t2, f2);
    }
  }

  // ---------------------------------------------------------------------
  // Shape of the name
  // ---------------------------------------------------------------------

  lemma TemplateShape(Y: string, mm: string, dd: string, hh: string, mi: string, ss: string, f: string)
    requires |Y| == 4 && |mm| == 2 && |dd| == 2 && |hh| == 2 && |mi| == 2 && |ss| == 2
    ensures var r := Template(Y, mm, dd, hh, mi, ss, f);
            |r| == 18 + |f|
            && r[4] == '-' && r[7] == '-' && r[10] == '-' && r[17] == '-'
            && r[..4] == Y && r[5..7] == mm && r[8..10] == dd && r[11..17] == hh + mi + ss
            && r[18..] == f
  {
    var p := Y + "-" + mm + "-" + dd + "-" + hh + mi + ss + "-";
    var r := p + f;
    assert Template(Y, mm, dd, hh, mi, ss, f) == r;
    assert r[..18] == p;
    assert r[18..] == f;
    assert p[..4] == Y;
    assert p[5..7] == mm;
    assert p[8..10] == dd;
    assert p[11..17] == hh + mi + ss;
  }

  /** A four-digit year gives a 17-character timestamp `YYYY-MM-DD-HHMMSS`
      with hours, minutes and seconds adjacent, then `-` and the field name. */
  lemma TimestampShape(t: LocalTime, fieldname: string)
    requires ValidTime(t) && 1000 <= t.year <= 9999
    ensures var r := FormattedLocalTime(t, fieldname);
            |r| == 18 + |fieldname|
            && r[4] == '-' && r[7] == '-' && r[10] == '-' && r[17] == '-'
            && r[..4] == NatToString(t.year)
            && r[5..7] == Pad2(t.month0 + 1) && r[8..10] == Pad2(t.day)
            && r[11..17] == Pad2(t.hours) + Pad2(t.minutes) + Pad2(t.seconds)
            && r[18..] == fieldname
  {
    NatToStringLength(t.year);
    Pad2Digits(t.month0 + 1);
    Pad2Digits(t.day);
    Pad2Digits(t.hours);
    Pad2Digits(t.minutes);
    Pad2Digits(t.seconds);
    TemplateShape(NatToString(t.year), Pad2(t.month0 + 1), Pad2(t.day), Pad2(t.hours),
                  Pad2(t.minutes), Pad2(t.seconds), fieldname);
  }

  /** The month in the name is one-based: its two characters read back as
      `month0 + 1`, so January is "01" and December "12". */
  lemma MonthIsOneBased(t: LocalTime, fieldname: string)
    requires ValidTime(t) && 1000 <= t.year <= 9999
    ensures var r := FormattedLocalTime(t, fieldname);
            && TwoDigits(r[5], r[6]) == Some(t.month0 + 1)
            && (t.month0 == 0 ==> r[5..7] == "01")
            && (t.month0 == 11 ==> r[5..7] == "12")
  {
    var r := FormattedLocalTime(t, fieldname);
    TimestampShape(t, fieldname);
    TwoDigitsOfPad2(t.month0 + 1);
    assert r[5] == r[5..7][0] && r[6] == r[5..7][1];
    Pad2Digits(1);
    Pad2Digits(12);
  }

  /** The name adds only digits and '-' to the field name: a character
      that is neither, and is not in the field name, is not in the name. */
  lemma NameAvoids(t: LocalTime, fieldname: string, c: char)
    requires !IsDigit(c) && c != '-' && c !in fieldname
    ensures c !in FormattedLocalTime(t, fieldname)
  {
    YearAvoids(t.year, c);
    Pad2AllDigits(t.month0 + 1);
    Pad2AllDigits(t.day);
    Pad2AllDigits(t.hours);
    Pad2AllDigits(t.minutes);
    Pad2AllDigits(t.seconds);
    TemplateAvoids(IntToString(t.year), Pad2(t.month0 + 1), Pad2(t.day), Pad2(t.hours),
                   Pad2(t.minutes), Pad2(t.seconds), fieldname, c);
  }

  lemma YearAvoids(year: int, c: char)
    requires !IsDigit(c) && c != '-'
    ensures c !in IntToString(year)
  {
    var r := IntToString(year);
    if year < 0 {
      assert r == [r[0]] + r[1..];
    }
  }

  lemma TemplateAvoids(year: string, month: string, day: string, hours: string, minutes: string,
                       seconds: string, fieldname: string, c: char)
    requires !IsDigit(c) && c != '-' && c !in year && c !in fieldname
    requires AllDigits(month) && AllDigits(day) && AllDigits(hours) && AllDigits(minutes) && AllDigits(seconds)
    ensures c !in Template(year, month, day, hours, minutes, seconds, fieldname)
  {
  }
}
