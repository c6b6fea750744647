/**
 The "Mon D, h:mm AM|PM" text of a flip time (`FlipperCore.formatDate`),
 taken over the local-time fields JavaScript's `Date` would supply, and a
 reader for that text which recovers everything the text shows.
 */
module DateFormat {
  import opened Options
  import opened Decimal

  /** Month (0 = January), day of month, hour on the 24-hour clock, minute. */
  datatype DateFields = DateFields(month: nat, day: nat, hours: nat, minutes: nat)

  predicate ValidFields(f: DateFields) {
    f.month < 12 && 1 <= f.day <= 31 && f.hours < 24 && f.minutes < 60
  }

  const Months: seq<string> :=
    ["Jan", "Feb", "Mar", "Apr", "May", "Jun", "Jul", "Aug", "Sep", "Oct", "Nov", "Dec"]

  /** The hour on a 12-hour clock face: midnight and noon show as 12. */
  function Hour12(hours: nat): (h: nat)
    ensures 1 <= h <= 12
    ensures h % 12 == hours % 12
  {
    if hours % 12 == 0 then 12 else hours % 12
  }

  /** "PM" for the hours from noon on, "AM" before. */
  function Meridiem(hours: nat): (r: string)
    ensures r == "AM" || r == "PM"
    ensures r == "PM" <==> hours >= 12
  {
    if hours >= 12 then "PM" else "AM"
  }

  /** Minutes as exactly two digits, a leading zero below ten. */
  function MinuteField(m: nat): (s: string)
    requires m < 60
    ensures |s| == 2 && AllDigits(s)
    ensures 10 * DigitValue(s[0]) + DigitValue(s[1]) == m
  {
    if m < 10 then "0" + NatToString(m)
    else
      NatToStringTwoDigits(m);
      NatToString(m)
  }

  /** The text of a flip time; `FormatDateRoundTrip` and `FormatDateExact` say what it shows. */
  function FormatDate(f: DateFields): string
    requires ValidFields(f)
  {
    DateText(f.month, f.day, Hour12(f.hours), MinuteField(f.minutes), Meridiem(f.hours))
  }

  /**
   The text of a flip time, read back, gives the month, the day, the
   minutes, the hour as a 12-hour clock shows it (1..12) and "PM" exactly
   for hours 12..23.
   */
  lemma FormatDateRoundTrip(f: DateFields)
    requires ValidFields(f)
    ensures ParseDate(FormatDate(f))
              == Some(Shown(f.month, f.day, Hour12(f.hours), f.minutes, f.hours >= 12))
  {
    ParseAssembled(f.month, f.day, Hour12(f.hours), f.minutes, f.hours);
  }


  /**
   The concatenation `month + " " + day + ", " + hours + ":" + minutes + " " + ampm`,
   bracketed from the right (concatenation is associative, so the text is the same).
   */
  function DateText(m: nat, day: nat, hour: nat, mm: string, ap: string): string
    requires m < 12
  {
    Months[m] + (" " + (NatToString(day) + (", " + (NatToString(hour) + (":" + (mm + (" " + ap)))))))
  }

  /** What the text shows: month, day, 12-hour hour, minute, and whether it is afternoon. */
  datatype Shown = Shown(month: nat, day: nat, hour: nat, minute: nat, pm: bool)

  /** The 24-hour hour a 12-hour reading stands for. */
  function Hours24(hour: nat, pm: bool): nat {
    hour % 12 + if pm then 12 else 0
  }

  /** Position of `t` in the month table, if it is one of the abbreviations. */
  function MonthIndex(t: string): (r: Option<nat>)
    ensures r.Some? ==> r.value < 12 && Months[r.value] == t
  {
    MonthFrom(t, 0)
  }

  /** The first position from `k` on where the month table holds `t`. */
  function MonthFrom(t: string, k: nat): (r: Option<nat>)
    requires k <= 12
    ensures r.Some? ==> k <= r.value < 12 && Months[r.value] == t
    ensures r.None? ==> forall j :: k <= j < 12 ==> Months[j] != t
    decreases 12 - k
  {
    if k == 12 then None else if Months[k] == t then Some(k) else MonthFrom(t, k + 1)
  }

  /** Reads "Mon D, h:mm AM" / "... PM" back; anything else gives nothing. */
  function ParseDate(s: string): Option<Shown> {
    if |s| < 4 || s[3] != ' ' then None
    else match MonthIndex(s[..3])
      case None => None
      case Some(m) => ParseDay(m, s[4..])
  }

  /** The text after "Mon ". */
  function ParseDay(m: nat, s: string): Option<Shown> {
    match ReadNumber(s)
    case None => None
    case Some((day, rest)) =>
      if |rest| < 2 || rest[..2] != ", " then None else ParseHour(m, day, rest[2..])
  }

  /** The text after "Mon D, ". */
  function ParseHour(m: nat, day: nat, s: string): Option<Shown> {
    match ReadNumber(s)
    case None => None
    case Some((hour, rest)) => ParseMinute(m, day, hour, rest)
  }

  /** The text after "Mon D, h": exactly ":mm AM" or ":mm PM". */
  function ParseMinute(m: nat, day: nat, hour: nat, s: string): Option<Shown> {
    if |s| != 6 || s[0] != ':' || !IsDigit(s[1]) || !IsDigit(s[2]) || s[3] != ' ' then None
    else
      var minute := 10 * DigitValue(s[1]) + DigitValue(s[2]);
      if s[4..] == "AM" then Some(Shown(m, day, hour, minute, false))
      else if s[4..] == "PM" then Some(Shown(m, day, hour, minute, true))
      else None
  }

  /** Each abbreviation in the table is found at its own position: no two months share one. */
  lemma MonthIndexOfMonths(m: nat)
    requires m < 12
    ensures MonthIndex(Months[m]) == Some(m)
  {
    var r := MonthIndex(Months[m]);
    if r.Some? && r.value != m {
      MonthsDistinct(r.value, m);
    }
  }

  lemma MonthsDistinct(i: nat, j: nat)
    requires i < 12 && j < 12 && i != j
    ensures Months[i] != Months[j]
  {
    assert Months[i][0] != Months[j][0] || Months[i][1] != Months[j][1] || Months[i][2] != Months[j][2];
  }

  lemma ParseMinuteAssembled(m: nat, day: nat, hour: nat, minute: nat, hours: nat)
    requires minute < 60
    ensures ParseMinute(m, day, hour, ":" + (MinuteField(minute) + (" " + Meridiem(hours))))
              == Some(Shown(m, day, hour, minute, hours >= 12))
  {
    var mm, ap := MinuteField(minute), Meridiem(hours);
    var s := ":" + (mm + (" " + ap));
    assert s[1] == mm[0] && s[2] == mm[1] && s[3] == ' ' && s[4..] == ap;
  }

  lemma ParseDayAssembled(m: nat, day: nat, hour: nat, rest: string)
    requires rest == [] || !IsDigit(rest[0])
    ensures ParseDay(m, NatToString(day) + (", " + (NatToString(hour) + rest)))
              == ParseMinute(m, day, hour, rest)
  {
    ReadNumberNatToString(hour, rest);
    var r1 := ", " + (NatToString(hour) + rest);
    assert r1[..2] == ", " && r1[2..] == NatToString(hour) + rest;
    ReadNumberNatToString(day, r1);
  }

  lemma ParseDateAssembled(m: nat, rest: string)
    requires m < 12
    ensures ParseDate(Months[m] + (" " + rest)) == ParseDay(m, rest)
  {
    var s := Months[m] + (" " + rest);
    assert s[..3] == Months[m] && s[3] == ' ' && s[4..] == rest;
    MonthIndexOfMonths(m);
  }

  /**
   Any text assembled the way the date is assembled, from a month, a day, a
   displayed hour, a minute and the 24-hour hour that picks AM or PM, reads
   back into those parts.
   */
  lemma ParseAssembled(m: nat, day: nat, hour: nat, minute: nat, hours: nat)
    requires m < 12 && minute < 60
    ensures ParseDate(DateText(m, day, hour, MinuteField(minute), Meridiem(hours)))
              == Some(Shown(m, day, hour, minute, hours >= 12))
  {
    var clock := ":" + (MinuteField(minute) + (" " + Meridiem(hours)));
    ParseMinuteAssembled(m, day, hour, minute, hours);
    ParseDayAssembled(m, day, hour, clock);
    ParseDateAssembled(m, NatToString(day) + (", " + (NatToString(hour) + clock)));
  }


  /** `ParseMinute` accepts one text per result, and its result carries the month, day and hour given to it. */
  lemma ParseMinuteInjective(m: nat, day: nat, hour: nat, s: string,
                             m': nat, day': nat, hour': nat, t: string)
    requires ParseMinute(m, day, hour, s).Some?
    requires ParseMinute(m, day, hour, s) == ParseMinute(m', day', hour', t)
    ensures s == t && m == m' && day == day' && hour == hour'
  {
    assert DigitValue(s[1]) == DigitValue(t[1]) && DigitValue(s[2]) == DigitValue(t[2]);
    assert s[4..] == t[4..];
    assert forall k :: 0 <= k < 6 ==> s[k] == t[k] by {
      assert s[4] == s[4..][0] && s[5] == s[4..][1];
      assert t[4] == t[4..][0] && t[5] == t[4..][1];
    }
  }

  lemma ParseHourInjective(m: nat, day: nat, s: string, m': nat, day': nat, t: string)
    requires ParseHour(m, day, s).Some?
    requires ParseHour(m, day, s) == ParseHour(m', day', t)
    ensures s == t && m == m' && day == day'
  {
    var (hour, rs) := ReadNumber(s).value;
    var (hour', rt) := ReadNumber(t).value;
    ParseMinuteInjective(m, day, hour, rs, m', day', hour', rt);
    ReadNumberCanonical(s);
    ReadNumberCanonical(t);
  }

  lemma ParseDayInjective(m: nat, s: string, m': nat, t: string)
    requires ParseDay(m, s).Some?
    requires ParseDay(m, s) == ParseDay(m', t)
    ensures s == t && m == m'
  {
    var (day, rs) := ReadNumber(s).value;
    var (day', rt) := ReadNumber(t).value;
    ParseHourInjective(m, day, rs[2..], m', day', rt[2..]);
    assert rs == rs[..2] + rs[2..] && rt == rt[..2] + rt[2..];
    ReadNumberCanonical(s);
    ReadNumberCanonical(t);
  }

  /** Two texts that read back as the same time are the same text: the reader accepts one spelling only. */
  lemma ParseDateInjective(s: string, t: string)
    requires ParseDate(s).Some?
    requires ParseDate(s) == ParseDate(t)
    ensures s == t
  {
    var m := MonthIndex(s[..3]).value;
    var m' := MonthIndex(t[..3]).value;
    ParseDayInjective(m, s[4..], m', t[4..]);
    assert s == s[..3] + [s[3]] + s[4..];
    assert t == t[..3] + [t[3]] + t[4..];
  }

  /**
   `FormatDate`'s text is the only text that reads back as its month, day,
   12-hour hour, minute and AM/PM: the day and hour carry no padding and
   the minute exactly two digits, as the source's concatenation produces.
   */
  lemma FormatDateExact(f: DateFields, t: string)
    requires ValidFields(f)
    requires ParseDate(t) == Some(Shown(f.month, f.day, Hour12(f.hours), f.minutes, f.hours >= 12))
    ensures t == FormatDate(f)
  {
    FormatDateRoundTrip(f);
    ParseDateInjective(FormatDate(f), t);
  }

  /** A zero-padded day is not a spelling the formatter produces, and the reader refuses it. */
  lemma ZeroPaddedDayRejected()
    ensures ParseDate("Jan 05, 3:07 PM") == None
  {
    ParseDateAssembled(0, "05, 3:07 PM");
    PaddedDayRefused();
    SplitAfterMonthPaddedDay();
  }

  lemma SplitAfterMonthPaddedDay()
    ensures "Jan 05, 3:07 PM" == Months[0] + (" " + "05, 3:07 PM")
  {
  }

  lemma PaddedDayRefused()
    ensures ReadNumber("05, 3:07 PM") == None
  {
    var t := "05, 3:07 PM";
    assert t[1..] == "5, 3:07 PM";
    assert t[1..][1..] == ", 3:07 PM";
    assert DigitSpan(t) == 2;
  }

  /** A zero-padded hour is refused in the same way. */
  lemma ZeroPaddedHourRejected()
    ensures ParseDate("Jan 5, 03:07 PM") == None
  {
    ParseDateAssembled(0, "5, 03:07 PM");
    DayThenPaddedHour();
    SplitAfterMonth();
  }

  lemma SplitAfterMonth()
    ensures "Jan 5, 03:07 PM" == Months[0] + (" " + "5, 03:07 PM")
  {
  }

  lemma DayThenPaddedHour()
    ensures ParseDay(0, "5, 03:07 PM") == None
  {
    var after := ", 03:07 PM";
    assert "5, 03:07 PM" == "5" + after;
    assert NatToString(5) == "5";
    ReadNumberNatToString(5, after);
    assert after[..2] == ", " && after[2..] == "03:07 PM";
    PaddedHourRefused();
  }

  lemma PaddedHourRefused()
    ensures ReadNumber("03:07 PM") == None
  {
    var t := "03:07 PM";
    assert t[1..] == "3:07 PM";
    assert t[1..][1..] == ":07 PM";
    assert DigitSpan(t) == 2;
  }

  /** The text pins the time down: different valid fields never print the same. */
  lemma FormatDateInjective(f: DateFields, g: DateFields)
    requires ValidFields(f) && ValidFields(g)
    requires FormatDate(f) == FormatDate(g)
    ensures f == g
  {
    FormatDateRoundTrip(f);
    FormatDateRoundTrip(g);
    HourRecovered(f.hours);
    HourRecovered(g.hours);
  }

  /** The 12-hour reading and the AM/PM flag determine the 24-hour hour. */
  lemma HourRecovered(hours: nat)
    requires hours < 24
    ensures Hours24(Hour12(hours), hours >= 12) == hours
  {
  }

  /** 15:07 on 5 January shows as "Jan 5, 3:07 PM". */
  lemma AfternoonExample()
    ensures FormatDate(DateFields(0, 5, 15, 7)) == "Jan 5, 3:07 PM"
  {
    assert NatToString(5) == "5" && NatToString(3) == "3";
    assert MinuteField(7) == "07" && Meridiem(15) == "PM" && Hour12(15) == 3;
  }

  /** 00:05 on 31 December shows as "Dec 31, 12:05 AM". */
  lemma MidnightExample()
    ensures FormatDate(DateFields(11, 31, 0, 5)) == "Dec 31, 12:05 AM"
  {
    assert NatToString(31) == "31" && NatToString(12) == "12";
    assert MinuteField(5) == "05" && Meridiem(0) == "AM" && Hour12(0) == 12;
  }
}
