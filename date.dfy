/** The date grammar of the recogniser (src/temporal/date.rs): the word
    parsers for relative and dot-separated dates, their resolution to a
    calendar date against an explicit "today", and `find_date`, which scans
    the words of a string for the first one that is a date. */
module TemporalDate {
  import opened Wrappers
  import opened Numbers
  import opened Words
  import opened Text
  import opened Calendar

  datatype DateRelative = Tomorrow

  /** The older `splitn`-based day.month.year reading, in unsigned fields. */
  datatype DateYMD = DateYMD(year: UInt16, month: UInt8, day: UInt8)

  /** The older `splitn`-based day.month reading, in unsigned fields. */
  datatype DateMD = DateMD(month: UInt8, day: UInt8)

  /** A dot-separated date: `D.M.Y` or year-less `D.M.`; the fields are
      stored year, month, day although the text gives the day first. */
  datatype DateStructured =
    | YMD(year: Int16, month: Int8, day: Int8)
    | MD(month: Int8, day: Int8)

  datatype DateUnit = Structured(structured: DateStructured) | Relative(relative: DateRelative)

  /** A recognised date word and its range `[start, end)` in the input. */
  type DateMatch = Found<DateUnit>

  const Dots: set<char> := {'.'}

  /** `DateRelative::from_str`: the word, lower-cased, must be `tomorrow`. */
  function ParseDateRelative(w: string): (r: Option<DateRelative>)
    ensures r.Some? ==> |w| == 8
  {
    if ToLower(w) == "tomorrow" then Some(Tomorrow) else None
  }

  /** `DateYMD::from_str`: at most three dot-separated fields, day, month
      and year, the last one taking the rest of the word. */
  function ParseDateYMD(w: string): (r: Option<DateYMD>) {
    var fields := SplitN(w, Dots, 3);
    match ParseU8(fields[0])
    case None => None
    case Some(day) =>
      if |fields| < 2 then None
      else match ParseU8(fields[1])
        case None => None
        case Some(month) =>
          if |fields| < 3 then None
          else match ParseU16(fields[2])
            case None => None
            case Some(year) => Some(DateYMD(year, month, day))
  }

  /** `DateMD::from_str`: the first two of at most three dot-separated
      fields, day then month. */
  function ParseDateMD(w: string): (r: Option<DateMD>) {
    var fields := SplitN(w, Dots, 3);
    match ParseU8(fields[0])
    case None => None
    case Some(day) =>
      if |fields| < 2 then None
      else match ParseU8(fields[1])
        case None => None
        case Some(month) => Some(DateMD(month, day))
  }

  /** `DateStructured::from_str`: day and month are the first two
      dot-separated segments; a third segment, when present and not empty,
      is the year. Later segments are never looked at. */
  function ParseDateStructured(w: string): (r: Option<DateStructured>) {
    var segments := Split(w, Dots);
    match ParseI8(segments[0])
    case None => None
    case Some(day) =>
      if |segments| < 2 then None
      else match ParseI8(segments[1])
        case None => None
        case Some(month) =>
          if |segments| >= 3 && segments[2] != [] then
            match ParseI16(segments[2])
            case None => None
            case Some(year) => Some(YMD(year, month, day))
          else Some(MD(month, day))
  }

  /** `DateRelative::as_date`: the day after today. Past the last
      representable date the source panics, here `None`. */
  function DateRelativeAsDate(u: DateRelative, today: Date): (r: Option<Date>)
    requires ValidDate(today)
    ensures r.None? <==> today == MaxDate
    ensures r.Some? ==> ValidDate(r.value) && Before(today, r.value)
  {
    match u
    case Tomorrow => NextDay(today)
  }

  /** `DateStructured::as_date`: the date as written, a year-less date in
      today's year (with no move to the next year for a day already past).
      The source panics on a date that does not exist, here `None`. */
  function DateStructuredAsDate(u: DateStructured, today: Date): (r: Option<Date>)
    ensures u.YMD? ==> (r.Some? <==> ValidDate(Date(u.year, u.month, u.day)))
    ensures u.MD? ==> (r.Some? <==> ValidDate(Date(today.year, u.month, u.day)))
    ensures r.Some? && u.YMD? ==> r.value == Date(u.year, u.month, u.day)
    ensures r.Some? && u.MD? ==> r.value == Date(today.year, u.month, u.day)
  {
    match u
    case YMD(year, month, day) => MakeDate(year, month, day)
    case MD(month, day) => MakeDate(today.year, month, day)
  }

  /** `DateUnit::as_date`. */
  function DateUnitAsDate(u: DateUnit, today: Date): (r: Option<Date>)
    requires ValidDate(today)
    ensures r.Some? ==> ValidDate(r.value)
    ensures u.Relative? ==> (r.None? <==> today == MaxDate)
  {
    match u
    case Structured(s) => DateStructuredAsDate(s, today)
    case Relative(rel) => DateRelativeAsDate(rel, today)
  }

  /** What one word of the input means to `find_date`: a relative date is
      tried before a dot-separated one. */
  function DateWord(w: string): (r: Option<DateUnit>) {
    match ParseDateRelative(w)
    case Some(rel) => Some(Relative(rel))
    case None =>
      match ParseDateStructured(w)
      case Some(u) => Some(Structured(u))
      case None => None
  }

  /** The result `find_date` computes: the first space- or comma-separated
      word that is a date, with the offset where the scanner found it. */
  function DateScan(s: string): (r: Option<DateMatch>) {
    FindWord(s, WordDelims, DateWord)
  }

  /** `find_date`: walks the words, keeping the offset of the current word,
      and returns the first one that parses as a date. */
  method FindDate(s: string) returns (r: Option<DateMatch>)
    ensures r == DateScan(s)
  {
    var words := Split(s, WordDelims);
    var start := 0;
    var i := 0;
    while i < |words|
      invariant i <= |words|
      invariant start == Offset(words, i)
      invariant forall j :: 0 <= j < i ==> DateWord(words[j]).None?
    {
      var word := words[i];
      var end := start + |word|;
      var relative := ParseDateRelative(word);
      if relative.Some? {
        DateScanAt(s, i, start, Relative(relative.value));
        return Some(Found(Relative(relative.value), start, end));
      }
      var structured := ParseDateStructured(word);
      if structured.Some? {
        DateScanAt(s, i, start, Structured(structured.value));
        return Some(Found(Structured(structured.value), start, end));
      }
      start := end + 1;
      i := i + 1;
    }
    FindWordNoneAt(s, WordDelims, DateWord);
    return None;
  }

  /** `DateScan` in terms of the first word that is a date. */
  lemma {:induction false} DateScanAt(s: string, i: nat, start: nat, u: DateUnit)
    requires var ws := Split(s, WordDelims);
             && i < |ws| && DateWord(ws[i]) == Some(u)
             && (forall j :: 0 <= j < i ==> DateWord(ws[j]).None?)
             && start == Offset(ws, i)
    ensures DateScan(s) == Some(Found(u, start, start + |Split(s, WordDelims)[i]|))
  {
    FindWordAt(s, WordDelims, DateWord, i);
  }

  // ---------------------------------------------------------------------
  // Relative dates

  /** Exactly the eight-letter words that spell `tomorrow` in any mix of
      upper and lower case are relative dates. */
  lemma {:induction false} RelativeWords(w: string)
    ensures ParseDateRelative(w).Some? <==>
              |w| == 8 && forall i :: 0 <= i < 8 ==> w[i] == "tomorrow"[i] || w[i] == "TOMORROW"[i]
  {
    var lw := ToLower(w);
    if |w| == 8 {
      assert lw == "tomorrow" <==> forall i :: 0 <= i < 8 ==> lw[i] == "tomorrow"[i];
    }
  }

  /** `tomorrow` resolves to the very next calendar day. */
  lemma {:induction false} TomorrowIsNextDay(today: Date, e: Date)
    requires ValidDate(today) && ValidDate(e) && Before(today, e)
    ensures DateRelativeAsDate(Tomorrow, today).Some?
    ensures !Before(e, DateRelativeAsDate(Tomorrow, today).value)
  {
    NextDayImmediate(today, e);
  }

  // ---------------------------------------------------------------------
  // Dot-separated dates

  /** A word without a dot is never a dot-separated date. */
  lemma {:induction false} StructuredNeedsDot(w: string)
    requires NoDelim(w, Dots)
    ensures ParseDateStructured(w) == None
  {
    SplitNoDelim(w, Dots);
  }

  /** A day or month field that is not an `i8` rejects the word. */
  lemma {:induction false} StructuredBadField(a: string, b: string, rest: string)
    requires NoDelim(a, Dots) && NoDelim(b, Dots) && (rest == [] || rest[0] == '.')
    requires ParseI8(a).None? || ParseI8(b).None?
    ensures ParseDateStructured(a + "." + b + rest) == None
  {
    SplitTwo(a, b, rest, Dots, '.');
  }

  /** `D.M`, `D.M.` and `D.M..` (an empty third segment) are year-less
      dates, read day first: the result holds the month, then the day. */
  lemma {:induction false} StructuredMD(a: string, b: string, rest: string)
    requires NoDelim(a, Dots) && NoDelim(b, Dots)
    requires rest == [] || rest == "." || (|rest| >= 2 && rest[0] == '.' && rest[1] == '.')
    requires ParseI8(a).Some? && ParseI8(b).Some?
    ensures ParseDateStructured(a + "." + b + rest) == Some(MD(ParseI8(b).value, ParseI8(a).value))
  {
    SplitTwo(a, b, rest, Dots, '.');
    if rest != [] {
      SplitHeadEmpty(rest[1..], Dots);
    }
  }

  /** `D.M.Y`, followed by nothing or by further dot-separated segments that
      are ignored, is a date with a year, read day first. */
  lemma {:induction false} StructuredYMD(a: string, b: string, c: string, t: string)
    requires NoDelim(a, Dots) && NoDelim(b, Dots) && NoDelim(c, Dots) && c != []
    requires t == [] || t[0] == '.'
    requires ParseI8(a).Some? && ParseI8(b).Some? && ParseI16(c).Some?
    ensures ParseDateStructured(a + "." + b + "." + c + t) ==
              Some(YMD(ParseI16(c).value, ParseI8(b).value, ParseI8(a).value))
  {
    var rest := "." + c + t;
    assert a + "." + b + "." + c + t == a + "." + b + rest;
    SplitTwo(a, b, rest, Dots, '.');
    assert rest[1..] == c + t;
    SplitHead(c, t, Dots);
  }

  /** A year segment that is present, not empty and not an `i16` rejects the
      word. */
  lemma {:induction false} StructuredBadYear(a: string, b: string, c: string, t: string)
    requires NoDelim(a, Dots) && NoDelim(b, Dots) && NoDelim(c, Dots) && c != []
    requires t == [] || t[0] == '.'
    requires ParseI16(c).None?
    ensures ParseDateStructured(a + "." + b + "." + c + t) == None
  {
    var rest := "." + c + t;
    assert a + "." + b + "." + c + t == a + "." + b + rest;
    SplitTwo(a, b, rest, Dots, '.');
    assert rest[1..] == c + t;
    SplitHead(c, t, Dots);
  }

  /** The canonical text of a dot-separated date, day first. */
  function DateText(u: DateStructured): string {
    match u
    case MD(month, day) => IntToString(day) + "." + IntToString(month) + "."
    case YMD(year, month, day) => IntToString(day) + "." + IntToString(month) + "." + IntToString(year)
  }

  lemma {:induction false} IntTextNoDot(i: int)
    ensures NoDelim(IntToString(i), Dots)
  {
  }

  /** Every dot-separated date reads back from its canonical text. */
  lemma {:induction false} DateTextRoundTrip(u: DateStructured)
    ensures ParseDateStructured(DateText(u)) == Some(u)
  {
    IntTextNoDot(u.day);
    IntTextNoDot(u.month);
    ParseI8ToString(u.day);
    ParseI8ToString(u.month);
    match u
    case MD(month, day) =>
      StructuredMD(IntToString(day), IntToString(month), ".");
    case YMD(year, month, day) =>
      IntTextNoDot(year);
      ParseI16ToString(year);
      assert DateText(u) == IntToString(day) + "." + IntToString(month) + "." + IntToString(year) + [];
      StructuredYMD(IntToString(day), IntToString(month), IntToString(year), []);
  }

  /** The canonical text holds a dot, so `find_date` never takes it for
      `tomorrow` and reads it back as the same date. */
  lemma {:induction false} DateTextWord(w: string, u: DateStructured)
    requires w == DateText(u)
    ensures DateWord(w) == Some(Structured(u))
  {
    DateTextRoundTrip(u);
    var k := |IntToString(u.day)|;
    assert w[k] == '.';
    assert ToLower(w)[k] == '.';
    assert forall i :: 0 <= i < 8 ==> "tomorrow"[i] != '.';
  }

  // ---------------------------------------------------------------------
  // The older splitn-based readings

  /** The fields `splitn(3, '.')` yields for two dot-free fields and a rest
      that is empty or starts with a dot. */
  lemma {:induction false} TwoFieldsN(a: string, b: string, rest: string)
    requires NoDelim(a, Dots) && NoDelim(b, Dots) && (rest == [] || rest[0] == '.')
    ensures var fields := SplitN(a + "." + b + rest, Dots, 3);
            && |fields| >= 2 && fields[0] == a && fields[1] == b
            && (rest == [] ==> |fields| == 2)
            && (rest != [] ==> |fields| == 3 && fields[2] == rest[1..])
  {
    SplitNConcat(a, '.', b + rest, Dots, 3);
    assert a + "." + b + rest == a + ['.'] + (b + rest);
    if rest == [] {
      assert b + rest == b;
      SplitNNoDelim(b, Dots, 2);
    } else {
      assert b + rest == b + [rest[0]] + rest[1..];
      SplitNConcat(b, rest[0], rest[1..], Dots, 2);
    }
  }

  /** `DateYMD` insists on a year: `D.M` and `D.M.` are rejected. */
  lemma {:induction false} YMDNeedsYear(a: string, b: string, rest: string)
    requires NoDelim(a, Dots) && NoDelim(b, Dots) && (rest == [] || rest == ".")
    ensures ParseDateYMD(a + "." + b + rest) == None
  {
    TwoFieldsN(a, b, rest);
  }

  /** Every `DateYMD` reads back from `D.M.Y`. */
  lemma {:induction false} YMDRoundTrip(y: UInt16, m: UInt8, d: UInt8)
    ensures ParseDateYMD(IntToString(d) + "." + IntToString(m) + "." + IntToString(y)) == Some(DateYMD(y, m, d))
  {
    IntTextNoDot(d);
    IntTextNoDot(m);
    var rest := "." + IntToString(y);
    assert IntToString(d) + "." + IntToString(m) + "." + IntToString(y) == IntToString(d) + "." + IntToString(m) + rest;
    TwoFieldsN(IntToString(d), IntToString(m), rest);
    assert rest[1..] == IntToString(y);
    ParseU8ToString(d);
    ParseU8ToString(m);
    ParseU16ToString(y);
  }

  /** `DateMD` reads day then month and ignores whatever follows the second
      field. */
  lemma {:induction false} MDRoundTrip(m: UInt8, d: UInt8, rest: string)
    requires rest == [] || rest[0] == '.'
    ensures ParseDateMD(IntToString(d) + "." + IntToString(m) + rest) == Some(DateMD(m, d))
  {
    IntTextNoDot(d);
    IntTextNoDot(m);
    TwoFieldsN(IntToString(d), IntToString(m), rest);
    ParseU8ToString(d);
    ParseU8ToString(m);
  }

  /** On a `D.M.Y` word whose numbers fit the signed fields, the older
      `DateYMD` reading and `DateStructured` agree. */
  lemma {:induction false} YMDAgreesWithStructured(a: string, b: string, c: string)
    requires NoDelim(a, Dots) && NoDelim(b, Dots) && NoDelim(c, Dots)
    requires ParseDateYMD(a + "." + b + "." + c).Some?
    requires var u := ParseDateYMD(a + "." + b + "." + c).value;
             u.year <= 32767 && u.month <= 127 && u.day <= 127
    ensures var u := ParseDateYMD(a + "." + b + "." + c).value;
            ParseDateStructured(a + "." + b + "." + c) == Some(YMD(u.year, u.month, u.day))
  {
    var w := a + "." + b + "." + c;
    var rest := "." + c;
    assert w == a + "." + b + rest;
    TwoFieldsN(a, b, rest);
    assert rest[1..] == c;
    var u := ParseDateYMD(w).value;
    assert ParseU8(a) == Some(u.day) && ParseU8(b) == Some(u.month) && ParseU16(c) == Some(u.year);
    UnsignedParsesSigned(a, 255, -128, 127);
    UnsignedParsesSigned(b, 255, -128, 127);
    UnsignedParsesSigned(c, 65535, -32768, 32767);
    assert ParseI8(a) == Some(u.day) && ParseI8(b) == Some(u.month) && ParseI16(c) == Some(u.year);
    ParseIntEmpty(0, 65535);
    assert w == a + "." + b + "." + c + [];
    StructuredYMD(a, b, c, []);
  }

  // ---------------------------------------------------------------------
  // find_date

  /** `find_date` finds nothing exactly when no word of the input is a date. */
  lemma {:induction false} DateScanNone(s: string)
    ensures DateScan(s).None? <==>
              forall a, b {:trigger IsWord(s, WordDelims, a, b)} :: IsWord(s, WordDelims, a, b) ==> DateWord(s[a..b]).None?
  {
    FindWordNone(s, WordDelims, DateWord);
  }

  /** What `find_date` finds is a word of the input, exactly at the range it
      reports, that is a date; no word that starts earlier is one. */
  lemma {:induction false} DateScanSome(s: string)
    requires DateScan(s).Some?
    ensures var m := DateScan(s).value;
            && 0 <= m.start <= m.end <= |s|
            && IsWord(s, WordDelims, m.start, m.end)
            && DateWord(s[m.start..m.end]) == Some(m.value)
            && forall a, b {:trigger IsWord(s, WordDelims, a, b)} :: IsWord(s, WordDelims, a, b) && a < m.start ==> DateWord(s[a..b]).None?
  {
    FindWordSome(s, WordDelims, DateWord);
  }

  // ---------------------------------------------------------------------
  // Worked case

  /** Words without a dot that do not spell `tomorrow` are no dates. */
  lemma {:induction false} EmptyNoDate()
    ensures DateWord("") == None
  {
    StructuredNeedsDot("");
  }

  lemma {:induction false} JohnsNoDate()
    ensures DateWord("John's") == None
  {
    StructuredNeedsDot("John's");
  }

  lemma {:induction false} BirthdayNoDate()
    ensures DateWord("birthday") == None
  {
    StructuredNeedsDot("birthday");
    assert ToLower("birthday")[0] == 'b';
  }

  lemma {:induction false} TomorrowWord()
    ensures DateWord("tomorrow") == Some(Relative(Tomorrow))
  {
  }

  /** A space before a tail moves whatever the tail holds by one. */
  lemma {:induction false} SkipSpace(t: string)
    ensures FindWord(" " + t, WordDelims, DateWord) == Shifted(FindWord(t, WordDelims, DateWord), 1)
  {
    EmptyNoDate();
    FindWordSkip([], ' ', t, WordDelims, DateWord);
    assert [] + [' '] + t == " " + t;
  }

  lemma {:induction false} SkipSpaces(t: string)
    ensures FindWord("  " + t, WordDelims, DateWord) == Shifted(FindWord(t, WordDelims, DateWord), 2)
  {
    SkipSpace(t);
    SkipSpace(" " + t);
    assert " " + (" " + t) == "  " + t;
    ShiftedTwice(FindWord(t, WordDelims, DateWord), 1, 1);
  }

  lemma {:induction false} SkipBirthday(t: string)
    ensures FindWord("birthday   " + t, WordDelims, DateWord) == Shifted(FindWord(t, WordDelims, DateWord), 11)
  {
    BirthdayNoDate();
    SkipSpaces(t);
    FindWordSkip("birthday", ' ', "  " + t, WordDelims, DateWord);
    assert "birthday" + [' '] + ("  " + t) == "birthday   " + t;
    ShiftedTwice(FindWord(t, WordDelims, DateWord), 2, 9);
  }

  lemma {:induction false} SkipJohns(t: string)
    ensures FindWord("John's  " + t, WordDelims, DateWord) == Shifted(FindWord(t, WordDelims, DateWord), 8)
  {
    JohnsNoDate();
    SkipSpace(t);
    FindWordSkip("John's", ' ', " " + t, WordDelims, DateWord);
    assert "John's" + [' '] + (" " + t) == "John's  " + t;
    ShiftedTwice(FindWord(t, WordDelims, DateWord), 1, 7);
  }

  lemma {:induction false} SkipJohnsThenBirthday(t: string)
    ensures FindWord("John's  birthday   " + t, WordDelims, DateWord) ==
              Shifted(FindWord(t, WordDelims, DateWord), 19)
  {
    assert "John's  " + ("birthday   " + t) == "John's  birthday   " + t;
    SkipBirthday(t);
    SkipJohns("birthday   " + t);
    ShiftedTwice(FindWord(t, WordDelims, DateWord), 11, 8);
  }

  /** Spaces and words that are not dates before a tail move whatever the
      tail holds by their length. */
  lemma {:induction false} SkipJohnsBirthday(t: string)
    ensures FindWord(" John's  birthday   " + t, WordDelims, DateWord) ==
              Shifted(FindWord(t, WordDelims, DateWord), 20)
  {
    var u := "John's  birthday   " + t;
    assert " " + u == " John's  birthday   " + t;
    SkipJohnsThenBirthday(t);
    SkipSpace(u);
    ShiftedTwice(FindWord(t, WordDelims, DateWord), 19, 1);
  }

  /** Leading, doubled and trailing spaces do not disturb the range:
      `tomorrow` is found at `[20, 28)`. */
  lemma {:induction false} DateScanSpaced()
    ensures DateScan(" John's  birthday   tomorrow ") == Some(Found(Relative(Tomorrow), 20, 28))
  {
    TomorrowWord();
    FindWordHead("tomorrow", " ", WordDelims, DateWord);
    SkipJohnsBirthday("tomorrow" + " ");
    assert " John's  birthday   " + ("tomorrow" + " ") == " John's  birthday   tomorrow ";
  }

  /** `22.9.1999` is read day first. */
  lemma {:induction false} NinetyNineWord()
    ensures DateWord("22.9.1999") == Some(Structured(YMD(1999, 9, 22)))
  {
    assert DateText(YMD(1999, 9, 22)) == "22.9.1999";
    DateTextWord("22.9.1999", YMD(1999, 9, 22));
  }

  lemma {:induction false} TwoThousandFourWord()
    ensures DateWord("21.11.2004") == Some(Structured(YMD(2004, 11, 21)))
  {
    assert DateText(YMD(2004, 11, 21)) == "21.11.2004";
    DateTextWord("21.11.2004", YMD(2004, 11, 21));
  }

  /** `22.9.` has no year. */
  lemma {:induction false} YearlessWord()
    ensures DateWord("22.9.") == Some(Structured(MD(9, 22)))
  {
    assert DateText(MD(9, 22)) == "22.9.";
    DateTextWord("22.9.", MD(9, 22));
  }

  /** A time of day is no date. */
  lemma {:induction false} ElevenOClockNoDate()
    ensures DateWord("11:00") == None
  {
    StructuredNeedsDot("11:00");
  }
}
