/** The combiner of src/temporal/mod.rs: `find_datetime` scans for a date,
    resolves it, then scans the text after the date for a time, and reports
    the range from the date's start to the date's end plus the time's
    (scanner-relative) end. */
module Temporal {
  import opened Wrappers
  import opened Numbers
  import opened Words
  import opened Text
  import opened Calendar
  import opened TemporalDate
  import opened TemporalTime

  /** What `find_datetime` does with a string: it finds no date, returns the
      date and time with the range it reports, or panics because a date or
      time word names no real date or time of day. */
  datatype DateTimeScan =
    | NoDate
    | Located(datetime: DateTime, start: nat, end: nat)
    | Panics

  /** The text `find_datetime` hands to the time scanner: everything after
      the date word. */
  function AfterDate(s: string): (t: string)
    requires DateScan(s).Some?
    ensures DateScan(s).value.end <= |s| && t == s[DateScan(s).value.end..]
  {
    DateScanSome(s);
    s[DateScan(s).value.end..]
  }

  /** `find_datetime`, with "today" in place of the clock. */
  function FindDateTime(s: string, today: Date): (r: DateTimeScan)
    requires ValidDate(today)
    ensures r.NoDate? <==> DateScan(s).None?
    ensures r.Located? ==> r.start == DateScan(s).value.start && DateScan(s).value.end <= r.end
    ensures r.Located? ==> ValidDate(r.datetime.date) && ValidTime(r.datetime.time)
    ensures r.Located? ==> DateUnitAsDate(DateScan(s).value.value, today) == Some(r.datetime.date)
    ensures r.Located? && TimeScan(AfterDate(s)).None? ==>
              r.end == DateScan(s).value.end && r.datetime.time == Midnight
    ensures r.Located? && TimeScan(AfterDate(s)).Some? ==>
              && r.end == DateScan(s).value.end + TimeScan(AfterDate(s)).value.end
              && TimeUnitAsTime(TimeScan(AfterDate(s)).value.value) == Some(r.datetime.time)
  {
    match DateScan(s)
    case None => NoDate
    case Some(d) =>
      match DateUnitAsDate(d.value, today)
      case None => Panics
      case Some(date) =>
        match TimeScan(AfterDate(s))
        case None => Located(DateTime(date, Midnight), d.start, d.end)
        case Some(t) =>
          match TimeUnitAsTime(t.value)
          case None => Panics
          case Some(time) => Located(DateTime(date, time), d.start, d.end + t.end)
  }

  /** The scan panics exactly when the date word names no date, or a time
      word follows that names no time of day. */
  lemma {:induction false} DateTimePanics(s: string, today: Date)
    requires ValidDate(today) && DateScan(s).Some?
    ensures var d, t := DateScan(s).value, TimeScan(AfterDate(s));
            FindDateTime(s, today).Panics? <==>
              DateUnitAsDate(d.value, today).None? || (t.Some? && TimeUnitAsTime(t.value.value).None?)
  {
  }

  /** With no time word after the date, the result is the date at midnight
      and the range is exactly the date word's. */
  lemma {:induction false} DateTimeWithoutTime(s: string, today: Date)
    requires ValidDate(today) && DateScan(s).Some?
    requires DateUnitAsDate(DateScan(s).value.value, today).Some?
    requires var t := AfterDate(s);
             forall a, b {:trigger IsWord(t, WordDelims, a, b)} :: IsWord(t, WordDelims, a, b) ==> TimeWord(t[a..b]).None?
    ensures var d := DateScan(s).value;
            FindDateTime(s, today) ==
              Located(DateTime(DateUnitAsDate(d.value, today).value, Midnight), d.start, d.end)
  {
    TimeScanNone(AfterDate(s));
  }

  /** When the text after the date starts with at most one space, the
      reported range lies inside the string: it starts at the date word,
      whose resolution is the reported date, and it ends either at the date
      word (time of day midnight) or at the end of a later time word whose
      resolution is the reported time. */
  lemma {:induction false} DateTimeSpan(s: string, today: Date)
    requires ValidDate(today) && FindDateTime(s, today).Located?
    requires DateScan(s).Some? && LeadingSpaces(AfterDate(s)) <= 1
    ensures var r, d := FindDateTime(s, today), DateScan(s).value;
            && r.start <= d.end <= r.end <= |s|
            && IsWord(s, WordDelims, r.start, d.end)
            && DateWord(s[r.start..d.end]) == Some(d.value)
            && DateUnitAsDate(d.value, today) == Some(r.datetime.date)
            && (|| (r.end == d.end && r.datetime.time == Midnight)
                || TimeWordEndsAt(s, d.end, r.end, r.datetime.time))
  {
    var r, d := FindDateTime(s, today), DateScan(s).value;
    DateScanSome(s);
    var after := AfterDate(s);
    if TimeScan(after).Some? {
      TimeAfter(s, d.end, TimeScan(after).value, r.datetime.time);
    }
  }

  /** Some word of `s` that starts at or after `e` and ends at `b` is a time
      that resolves to `time`. */
  predicate TimeWordEndsAt(s: string, e: nat, b: nat, time: Time)
    requires e <= b <= |s|
  {
    exists a {:trigger s[a..b]} :: e <= a <= b && TimeWord(s[a..b]).Some? && TimeUnitAsTime(TimeWord(s[a..b]).value) == Some(time)
  }

  /** A time found, with exact offsets, in a suffix of `s` is a time word of
      `s` at the offsets moved by where the suffix starts. */
  lemma {:induction false} TimeAfter(s: string, e: nat, m: TimeMatch, time: Time)
    requires e <= |s| && TimeScan(s[e..]) == Some(m) && LeadingSpaces(s[e..]) <= 1
    requires TimeUnitAsTime(m.value) == Some(time)
    ensures e + m.end <= |s| && TimeWordEndsAt(s, e, e + m.end, time)
  {
    var t := s[e..];
    TimeScanExact(t);
    assert m.start <= m.end <= |t| && TimeWord(t[m.start..m.end]) == Some(m.value);
    var a, b := e + m.start, e + m.end;
    assert s[a..b] == t[m.start..m.end] by {
      assert forall j :: 0 <= j < b - a ==> s[a..b][j] == s[a + j] == t[m.start + j];
    }
    assert TimeWord(s[a..b]) == Some(m.value);
  }

  // ---------------------------------------------------------------------
  // Worked cases

  /** A date word at the very start of the text: the range starts at 0,
      and the time, if any, is whatever the scanner finds in the rest. */
  lemma {:induction false} DateTimeAtStart(s: string, w: string, rest: string, today: Date, u: DateUnit, date: Date)
    requires ValidDate(today) && s == w + rest
    requires NoDelim(w, WordDelims) && (rest == [] || rest[0] in WordDelims)
    requires DateWord(w) == Some(u) && DateUnitAsDate(u, today) == Some(date)
    ensures TimeScan(rest).None? ==>
              FindDateTime(s, today) == Located(DateTime(date, Midnight), 0, |w|)
    ensures TimeScan(rest).Some? && TimeUnitAsTime(TimeScan(rest).value.value).Some? ==>
              FindDateTime(s, today) ==
                Located(DateTime(date, TimeUnitAsTime(TimeScan(rest).value.value).value), 0, |w| + TimeScan(rest).value.end)
  {
    FindWordHead(w, rest, WordDelims, DateWord);
    assert AfterDate(s) == rest;
  }

  /** `21.11.2004` alone is that date at midnight, over `[0, 10)`. */
  lemma {:induction false} DateOnly(today: Date)
    requires ValidDate(today)
    ensures FindDateTime("21.11.2004", today) == Located(DateTime(Date(2004, 11, 21), Midnight), 0, 10)
  {
    var w := "21.11.2004";
    assert w == w + [] && NoDelim(w, WordDelims);
    var u := DateUnit.Structured(YMD(2004, 11, 21));
    assert DateUnitAsDate(u, today) == Some(Date(2004, 11, 21));
    TwoThousandFourWord();
    EmptyNoTime();
    DateTimeAtStart(w, w, [], today, u, Date(2004, 11, 21));
  }

  /** In `22.9.1999 11` the bare hour after the date is part of the
      range, which ends at 12. */
  lemma {:induction false} DateAndHour(today: Date)
    requires ValidDate(today)
    ensures FindDateTime("22.9.1999 11", today) == Located(DateTime(Date(1999, 9, 22), Time(11, 0, 0)), 0, 12)
  {
    var s, w, rest := "22.9.1999 11", "22.9.1999", " 11";
    assert s == w + rest && NoDelim(w, WordDelims) && rest[0] in WordDelims;
    var u := DateUnit.Structured(YMD(1999, 9, 22));
    assert DateUnitAsDate(u, today) == Some(Date(1999, 9, 22));
    NinetyNineWord();
    ElevenAfterSpace();
    DateTimeAtStart(s, w, rest, today, u, Date(1999, 9, 22));
  }

  /** In `22.9.1999 11:00` the hour and minute after the date are part of
      the range, which ends at 15. */
  lemma {:induction false} DateAndMinutes(today: Date)
    requires ValidDate(today)
    ensures FindDateTime("22.9.1999 11:00", today) == Located(DateTime(Date(1999, 9, 22), Time(11, 0, 0)), 0, 15)
  {
    var s, w, rest := "22.9.1999 11:00", "22.9.1999", " 11:00";
    assert s == w + rest && NoDelim(w, WordDelims) && rest[0] in WordDelims;
    var u := DateUnit.Structured(YMD(1999, 9, 22));
    assert DateUnitAsDate(u, today) == Some(Date(1999, 9, 22));
    NinetyNineWord();
    ElevenSharpAfterSpace();
    DateTimeAtStart(s, w, rest, today, u, Date(1999, 9, 22));
  }

  /** A year-less date takes today's year, whether or not the day is already
      past. */
  lemma {:induction false} YearlessAndHour(today: Date)
    requires ValidDate(today)
    ensures FindDateTime("22.9. 11", today) == Located(DateTime(Date(today.year, 9, 22), Time(11, 0, 0)), 0, 8)
  {
    var s, w, rest := "22.9. 11", "22.9.", " 11";
    assert s == w + rest && NoDelim(w, WordDelims) && rest[0] in WordDelims;
    var u := DateUnit.Structured(MD(9, 22));
    assert DateUnitAsDate(u, today) == Some(Date(today.year, 9, 22));
    YearlessWord();
    ElevenAfterSpace();
    DateTimeAtStart(s, w, rest, today, u, Date(today.year, 9, 22));
  }

  /** `tomorrow 0:30:12` is the next day at 00:30:12, over `[0, 16)`. */
  lemma {:induction false} TomorrowWithSeconds(today: Date)
    requires ValidDate(today) && today != MaxDate
    ensures FindDateTime("tomorrow 0:30:12", today) ==
              Located(DateTime(NextDay(today).value, Time(0, 30, 12)), 0, 16)
  {
    var s, w, rest := "tomorrow 0:30:12", "tomorrow", " 0:30:12";
    assert s == w + rest && NoDelim(w, WordDelims) && rest[0] in WordDelims;
    TomorrowWord();
    HalfPastMidnightAfterSpace();
    DateTimeAtStart(s, w, rest, today, Relative(Tomorrow), NextDay(today).value);
  }

  /** With two spaces between date and time the range ends one past the
      end of the text: 12 for the 11 characters of `tomorrow  5`. */
  lemma {:induction false} OvershootPastEnd(today: Date)
    requires ValidDate(today) && today != MaxDate
    ensures FindDateTime("tomorrow  5", today) ==
              Located(DateTime(NextDay(today).value, Time(5, 0, 0)), 0, 12)
    ensures |"tomorrow  5"| == 11
  {
    var s, w, rest := "tomorrow  5", "tomorrow", "  5";
    assert s == w + rest && NoDelim(w, WordDelims) && rest[0] in WordDelims;
    TomorrowWord();
    TimeScanOvershootExample();
    DateTimeAtStart(s, w, rest, today, Relative(Tomorrow), NextDay(today).value);
  }

  /** The time must follow the date: in `11:00 tomorrow` the time before
      the date is not read, and the result is tomorrow at midnight over
      the date word's range `[6, 14)`. */
  lemma {:induction false} TimeBeforeDate(today: Date)
    requires ValidDate(today) && today != MaxDate
    ensures FindDateTime("11:00 tomorrow", today) == Located(DateTime(NextDay(today).value, Midnight), 6, 14)
  {
    var s, v, w := "11:00 tomorrow", "11:00", "tomorrow";
    assert s == v + [' '] + w && w == w + [] && NoDelim(v, WordDelims) && NoDelim(w, WordDelims);
    assert DateScan(s) == Some(Found(Relative(Tomorrow), 6, 14)) by {
      ElevenOClockNoDate();
      TomorrowWord();
      FindWordHead(w, [], WordDelims, DateWord);
      FindWordSkip(v, ' ', w, WordDelims, DateWord);
    }
    assert AfterDate(s) == [];
    EmptyNoTime();
  }
}
