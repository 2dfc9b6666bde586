/** The time grammar of the recogniser (src/temporal/time.rs): the
    colon-separated `H`, `H:M` and `H:M:S` word parser, its conversion to a
    time of day, and `find_time`, which scans the words of the text after a
    date for the first one that is a time. */
module TemporalTime {
  import opened Wrappers
  import opened Numbers
  import opened Words
  import opened Text
  import opened Calendar

  datatype TimeStructured =
    | H(hour: Int8)
    | HM(hour: Int8, minute: Int8)
    | HMS(hour: Int8, minute: Int8, second: Int8)

  datatype TimeUnit = Structured(structured: TimeStructured)

  /** A recognised time word and the range `find_time` reports for it. */
  type TimeMatch = Found<TimeUnit>

  const Colons: set<char> := {':'}

  /** `TimeStructured::from_str`: the hour is the first colon-separated
      segment; a second segment, when present and not empty, is the minute,
      and then a third one, when present and not empty, is the second.
      Later segments are never looked at. */
  function ParseTimeStructured(w: string): (r: Option<TimeStructured>) {
    var segments := Split(w, Colons);
    match ParseI8(segments[0])
    case None => None
    case Some(hour) =>
      if |segments| >= 2 && segments[1] != [] then
        match ParseI8(segments[1])
        case None => None
        case Some(minute) =>
          if |segments| >= 3 && segments[2] != [] then
            match ParseI8(segments[2])
            case None => None
            case Some(second) => Some(HMS(hour, minute, second))
          else Some(HM(hour, minute))
      else Some(H(hour))
  }

  /** `TimeStructured::as_time`: missing fields are zero. The source unwraps
      `Time::new`, which panics (here `None`) outside 0..23 hours and 0..59
      minutes and seconds. */
  function TimeStructuredAsTime(t: TimeStructured): (r: Option<Time>)
    ensures t.H? ==> (r.Some? <==> 0 <= t.hour <= 23)
    ensures t.HM? ==> (r.Some? <==> 0 <= t.hour <= 23 && 0 <= t.minute <= 59)
    ensures t.HMS? ==> (r.Some? <==> 0 <= t.hour <= 23 && 0 <= t.minute <= 59 && 0 <= t.second <= 59)
    ensures r.Some? && t.H? ==> r.value == Time(t.hour, 0, 0)
    ensures r.Some? && t.HM? ==> r.value == Time(t.hour, t.minute, 0)
    ensures r.Some? && t.HMS? ==> r.value == Time(t.hour, t.minute, t.second)
  {
    match t
    case H(h) => MakeTime(h, 0, 0)
    case HM(h, m) => MakeTime(h, m, 0)
    case HMS(h, m, s) => MakeTime(h, m, s)
  }

  /** `TimeUnit::as_time`. */
  function TimeUnitAsTime(u: TimeUnit): (r: Option<Time>)
    ensures r.Some? ==> ValidTime(r.value)
  {
    match u
    case Structured(t) => TimeStructuredAsTime(t)
  }

  /** What one word of the text means to `find_time`. */
  function TimeWord(w: string): (r: Option<TimeUnit>) {
    match ParseTimeStructured(w)
    case Some(t) => Some(Structured(t))
    case None => None
  }

  /** How far `find_time` moves every offset: the number of leading spaces,
      less one. */
  function TimeShift(s: string): (k: nat)
    ensures k <= |s|
  {
    var spaces := LeadingSpaces(s);
    if spaces > 0 then spaces - 1 else 0
  }

  /** The result `find_time` computes: the first space- or comma-separated
      word that is a time, at its offset moved by `TimeShift`. */
  function TimeScan(s: string): (r: Option<TimeMatch>) {
    Shifted(FindWord(s, WordDelims, TimeWord), TimeShift(s))
  }

  /** `find_time`: counts the leading spaces into `start`, steps back by one
      when there were any, and then walks the words from that offset,
      returning the first one that parses as a time. */
  method FindTime(s: string) returns (r: Option<TimeMatch>)
    ensures r == TimeScan(s)
  {
    var start := 0;
    while start < |s| && s[start] == ' '
      invariant start <= |s|
      invariant forall j :: 0 <= j < start ==> s[j] == ' '
    {
      start := start + 1;
    }
    LeadingSpacesOf(s, start);
    if start > 0 {
      start := start - 1;
    }
    var shift := start;
    assert shift == TimeShift(s);
    var words := Split(s, WordDelims);
    var i := 0;
    while i < |words|
      invariant i <= |words|
      invariant start == shift + Offset(words, i)
      invariant forall j :: 0 <= j < i ==> TimeWord(words[j]).None?
    {
      var word := words[i];
      var end := start + |word|;
      var unit := ParseTimeStructured(word);
      if unit.Some? {
        TimeScanAt(s, i, start, unit.value);
        return Some(Found(Structured(unit.value), start, end));
      }
      start := end + 1;
      i := i + 1;
    }
    assert TimeScan(s) == None by {
      FindWordNoneAt(s, WordDelims, TimeWord);
    }
    return None;
  }

  /** `TimeScan` in terms of the first word that is a time. */
  lemma {:induction false} TimeScanAt(s: string, i: nat, start: nat, t: TimeStructured)
    requires var ws := Split(s, WordDelims);
             && i < |ws| && ParseTimeStructured(ws[i]) == Some(t)
             && (forall j :: 0 <= j < i ==> TimeWord(ws[j]).None?)
             && start == TimeShift(s) + Offset(ws, i)
    ensures TimeScan(s) == Some(Found(Structured(t), start, start + |Split(s, WordDelims)[i]|))
  {
    FindWordAt(s, WordDelims, TimeWord, i);
  }

  // ---------------------------------------------------------------------
  // The word parser

  /** An hour segment that is not an `i8`, the empty one included, rejects
      the word. */
  lemma {:induction false} TimeBadHour(a: string, rest: string)
    requires NoDelim(a, Colons) && (rest == [] || rest[0] == ':')
    requires ParseI8(a).None?
    ensures ParseTimeStructured(a + rest) == None
  {
    SplitHead(a, rest, Colons);
  }

  /** In particular a word that is empty or starts with a colon is never a
      time. */
  lemma {:induction false} TimeEmptyHour(w: string)
    requires w == [] || w[0] == ':'
    ensures ParseTimeStructured(w) == None
  {
    ParseIntEmpty(-128, 127);
    assert [] + w == w;
    TimeBadHour([], w);
  }

  /** A time word is never empty. */
  lemma {:induction false} TimeWordNotEmpty(w: string)
    requires TimeWord(w).Some?
    ensures w != []
  {
    SplitHeadEmpty(w, Colons);
    ParseIntEmpty(-128, 127);
  }

  /** `H`, `H:` and `H::...` (an empty minute segment, whatever follows) are
      a bare hour. */
  lemma {:induction false} TimeH(a: string, rest: string)
    requires NoDelim(a, Colons) && ParseI8(a).Some?
    requires rest == [] || rest == ":" || (|rest| >= 2 && rest[0] == ':' && rest[1] == ':')
    ensures ParseTimeStructured(a + rest) == Some(H(ParseI8(a).value))
  {
    SplitHead(a, rest, Colons);
    if rest == [] {
      assert a + rest == a;
      SplitNoDelim(a, Colons);
    } else {
      SplitHeadEmpty(rest[1..], Colons);
    }
  }

  /** `H:M`, `H:M:` and `H:M::...` (an empty second segment) are an hour and
      a minute. */
  lemma {:induction false} TimeHM(a: string, b: string, rest: string)
    requires NoDelim(a, Colons) && NoDelim(b, Colons) && b != []
    requires rest == [] || rest == ":" || (|rest| >= 2 && rest[0] == ':' && rest[1] == ':')
    requires ParseI8(a).Some? && ParseI8(b).Some?
    ensures ParseTimeStructured(a + ":" + b + rest) == Some(HM(ParseI8(a).value, ParseI8(b).value))
  {
    SplitTwo(a, b, rest, Colons, ':');
    if rest != [] {
      SplitHeadEmpty(rest[1..], Colons);
    }
  }

  /** A minute segment that is present, not empty and not an `i8` rejects
      the word. */
  lemma {:induction false} TimeBadMinute(a: string, b: string, rest: string)
    requires NoDelim(a, Colons) && NoDelim(b, Colons) && b != []
    requires rest == [] || rest[0] == ':'
    requires ParseI8(b).None?
    ensures ParseTimeStructured(a + ":" + b + rest) == None
  {
    SplitTwo(a, b, rest, Colons, ':');
  }

  /** `H:M:S`, followed by nothing or by further colon-separated segments
      that are ignored, is an hour, a minute and a second. */
  lemma {:induction false} TimeHMS(a: string, b: string, c: string, t: string)
    requires NoDelim(a, Colons) && NoDelim(b, Colons) && NoDelim(c, Colons) && b != [] && c != []
    requires t == [] || t[0] == ':'
    requires ParseI8(a).Some? && ParseI8(b).Some? && ParseI8(c).Some?
    ensures ParseTimeStructured(a + ":" + b + ":" + c + t) ==
              Some(HMS(ParseI8(a).value, ParseI8(b).value, ParseI8(c).value))
  {
    var rest := ":" + c + t;
    assert a + ":" + b + ":" + c + t == a + ":" + b + rest;
    SplitTwo(a, b, rest, Colons, ':');
    assert rest[1..] == c + t;
    SplitHead(c, t, Colons);
  }

  /** A second segment that is present, not empty and not an `i8` rejects
      the word. */
  lemma {:induction false} TimeBadSecond(a: string, b: string, c: string, t: string)
    requires NoDelim(a, Colons) && NoDelim(b, Colons) && NoDelim(c, Colons) && b != [] && c != []
    requires t == [] || t[0] == ':'
    requires ParseI8(b).Some? && ParseI8(c).None?
    ensures ParseTimeStructured(a + ":" + b + ":" + c + t) == None
  {
    var rest := ":" + c + t;
    assert a + ":" + b + ":" + c + t == a + ":" + b + rest;
    SplitTwo(a, b, rest, Colons, ':');
    assert rest[1..] == c + t;
    SplitHead(c, t, Colons);
  }

  /** The canonical text of a time: its fields joined by colons. */
  function TimeText(t: TimeStructured): string {
    match t
    case H(h) => IntToString(h)
    case HM(h, m) => IntToString(h) + ":" + IntToString(m)
    case HMS(h, m, s) => IntToString(h) + ":" + IntToString(m) + ":" + IntToString(s)
  }

  lemma {:induction false} IntTextNoColon(i: int)
    ensures NoDelim(IntToString(i), Colons) && IntToString(i) != []
  {
  }

  /** Every time reads back from its canonical text. */
  lemma {:induction false} TimeTextRoundTrip(t: TimeStructured)
    ensures ParseTimeStructured(TimeText(t)) == Some(t)
  {
    IntTextNoColon(t.hour);
    ParseI8ToString(t.hour);
    match t
    case H(h) =>
      assert TimeText(t) == IntToString(h) + [];
      TimeH(IntToString(h), []);
    case HM(h, m) =>
      IntTextNoColon(m);
      ParseI8ToString(m);
      assert TimeText(t) == IntToString(h) + ":" + IntToString(m) + [];
      TimeHM(IntToString(h), IntToString(m), []);
    case HMS(h, m, s) =>
      IntTextNoColon(m);
      IntTextNoColon(s);
      ParseI8ToString(m);
      ParseI8ToString(s);
      assert TimeText(t) == IntToString(h) + ":" + IntToString(m) + ":" + IntToString(s) + [];
      TimeHMS(IntToString(h), IntToString(m), IntToString(s), []);
  }

  // ---------------------------------------------------------------------
  // find_time

  /** `find_time` finds nothing exactly when no word of the text is a time. */
  lemma {:induction false} TimeScanNone(s: string)
    ensures TimeScan(s).None? <==>
              forall a, b {:trigger IsWord(s, WordDelims, a, b)} :: IsWord(s, WordDelims, a, b) ==> TimeWord(s[a..b]).None?
  {
    FindWordNone(s, WordDelims, TimeWord);
  }

  /** What `find_time` finds is a word of the text that is a time, no word
      that starts earlier is one, and the reported range has the word's
      length but lies `TimeShift(s)` characters after the word. The word
      never starts inside the leading spaces. */
  lemma {:induction false} TimeScanSome(s: string)
    requires TimeScan(s).Some?
    ensures var m, k := TimeScan(s).value, TimeShift(s);
            var a, b := m.start - k, m.end - k;
            && 0 <= a <= b <= |s|
            && IsWord(s, WordDelims, a, b)
            && TimeWord(s[a..b]) == Some(m.value)
            && LeadingSpaces(s) <= a
            && forall a', b' {:trigger IsWord(s, WordDelims, a', b')} :: IsWord(s, WordDelims, a', b') && a' < a ==> TimeWord(s[a'..b']).None?
  {
    TimeScanFound(s);
    FindWordSome(s, WordDelims, TimeWord);
    TimeWordAfterSpaces(s);
  }

  /** The scan result is the first time word, moved by `TimeShift(s)`. */
  lemma {:induction false} TimeScanFound(s: string)
    requires TimeScan(s).Some?
    ensures FindWord(s, WordDelims, TimeWord).Some?
    ensures var f, m := FindWord(s, WordDelims, TimeWord).value, TimeScan(s).value;
            m.start == TimeShift(s) + f.start && m.end == TimeShift(s) + f.end && m.value == f.value
  {
  }

  /** The first time word starts after the leading spaces. */
  lemma {:induction false} TimeWordAfterSpaces(s: string)
    requires FindWord(s, WordDelims, TimeWord).Some?
    ensures LeadingSpaces(s) <= FindWord(s, WordDelims, TimeWord).value.start
  {
    var f := FindWord(s, WordDelims, TimeWord).value;
    FindWordSome(s, WordDelims, TimeWord);
    var w := s[f.start..f.end];
    TimeWordNotEmpty(w);
    assert s[f.start] == w[0];
  }

  /** After `k` leading spaces, `find_time` reports the first time word of
      the rest `k - 1` characters past where it lies in the whole text:
      `2k - 1` after the start of the rest instead of `k`. */
  lemma {:induction false} TimeScanAfterSpaces(k: nat, t: string)
    requires t == [] || t[0] != ' '
    ensures TimeScan(Spaces(k) + t) == Shifted(FindWord(t, WordDelims, TimeWord), if k == 0 then 0 else 2 * k - 1)
  {
    var s, x := Spaces(k) + t, FindWord(t, WordDelims, TimeWord);
    assert TimeShift(s) == if k == 0 then 0 else k - 1 by {
      LeadingSpacesOf(s, k);
    }
    assert TimeScan(s) == Shifted(Shifted(x, k), TimeShift(s)) by {
      TimeEmptyHour([]);
      FindWordAfterSpaces(k, t, TimeWord);
    }
    ShiftedTwice(x, k, TimeShift(s));
  }

  /** With at most one leading space, `find_time` reports exactly the range
      of the word it found. */
  lemma {:induction false} TimeScanExact(s: string)
    requires TimeScan(s).Some? && LeadingSpaces(s) <= 1
    ensures var m := TimeScan(s).value;
            && m.start <= m.end <= |s|
            && IsWord(s, WordDelims, m.start, m.end)
            && TimeWord(s[m.start..m.end]) == Some(m.value)
  {
    TimeScanSome(s);
  }

  /** With `k >= 2` leading spaces, both reported offsets lie `k - 1`
      characters past the word that was found. */
  lemma {:induction false} TimeScanOvershoot(s: string)
    requires TimeScan(s).Some? && LeadingSpaces(s) >= 2
    ensures var m, k := TimeScan(s).value, LeadingSpaces(s);
            && m.start >= k - 1
            && IsWord(s, WordDelims, m.start - (k - 1), m.end - (k - 1))
            && TimeWord(s[m.start - (k - 1)..m.end - (k - 1)]) == Some(m.value)
  {
    TimeScanSome(s);
  }

  // ---------------------------------------------------------------------
  // Worked cases

  /** A word ending in a letter is not a time. */
  lemma {:induction false} JunkIsNoTime()
    ensures TimeWord("iaksjdk") == None
  {
    var junk := "iaksjdk";
    ParseIntNonDigitEnd(junk, -128, 127);
    assert junk + [] == junk;
    TimeBadHour(junk, []);
  }

  /** `13:30` alone is a time found at `[0, 5)`. */
  lemma {:induction false} HalfPastOne()
    ensures FindWord("13:30", WordDelims, TimeWord) == Some(Found(TimeUnit.Structured(HM(13, 30)), 0, 5))
  {
    var time := "13:30";
    IntTextNoColon(13);
    IntTextNoColon(30);
    ParseI8ToString(13);
    ParseI8ToString(30);
    assert time == IntToString(13) + ":" + IntToString(30) + [];
    TimeHM(IntToString(13), IntToString(30), []);
    assert time + [] == time;
    FindWordHead(time, [], WordDelims, TimeWord);
  }

  /** The word that is not a time is skipped, and `13:30` is found after
      it and its delimiter. */
  lemma {:induction false} JunkThenHalfPastOne()
    ensures FindWord("iaksjdk" + [' '] + "13:30", WordDelims, TimeWord) ==
              Some(Found(TimeUnit.Structured(HM(13, 30)), 8, 13))
  {
    JunkIsNoTime();
    HalfPastOne();
    FindWordSkip("iaksjdk", ' ', "13:30", WordDelims, TimeWord);
  }

  /** The word `13:30` after one leading space and a word that is not a
      time is reported at `[9, 14)`, its true range. */
  lemma {:induction false} TimeScanAfterJunk()
    ensures TimeScan(" iaksjdk 13:30") == Some(Found(TimeUnit.Structured(HM(13, 30)), 9, 14))
  {
    var rest := "iaksjdk" + [' '] + "13:30";
    JunkThenHalfPastOne();
    assert " iaksjdk 13:30" == Spaces(1) + rest by {
      assert Spaces(1) == [' '];
    }
    TimeScanAfterSpaces(1, rest);
  }

  /** After two leading spaces the word `5`, at `[2, 3)`, is reported at
      `[3, 4)`, one character too far. */
  lemma {:induction false} TimeScanOvershootExample()
    ensures TimeScan("  5") == Some(Found(TimeUnit.Structured(H(5)), 3, 4))
  {
    assert TimeWord("5") == Some(TimeUnit.Structured(H(5))) by {
      ParseI8ToString(5);
      assert "5" == IntToString(5) + [];
      TimeH(IntToString(5), []);
    }
    FindWordHead("5", [], WordDelims, TimeWord);
    assert "5" + [] == "5";
    assert "  5" == Spaces(2) + "5";
    TimeScanAfterSpaces(2, "5");
  }

  /** A bare hour is a time on the hour. */
  lemma {:induction false} ElevenWord()
    ensures TimeWord("11") == Some(TimeUnit.Structured(H(11)))
  {
    ParseI8ToString(11);
    assert "11" == IntToString(11) + [];
    TimeH(IntToString(11), []);
  }

  lemma {:induction false} HalfPastMidnightWord()
    ensures TimeWord("0:30:12") == Some(TimeUnit.Structured(HMS(0, 30, 12)))
  {
    IntTextNoColon(0);
    IntTextNoColon(30);
    IntTextNoColon(12);
    ParseI8ToString(0);
    ParseI8ToString(30);
    ParseI8ToString(12);
    assert "0:30:12" == IntToString(0) + ":" + IntToString(30) + ":" + IntToString(12) + [];
    TimeHMS(IntToString(0), IntToString(30), IntToString(12), []);
  }

  /** `23:59` is an hour and a minute. */
  lemma {:induction false} LastMinuteWord()
    ensures TimeWord("23:59") == Some(TimeUnit.Structured(HM(23, 59)))
  {
    IntTextNoColon(23);
    IntTextNoColon(59);
    ParseI8ToString(23);
    ParseI8ToString(59);
    assert "23:59" == IntToString(23) + ":" + IntToString(59) + [];
    TimeHM(IntToString(23), IntToString(59), []);
  }

  /** One space before `23:59` and two after it: the true range `[1, 6)`. */
  lemma {:induction false} LastMinuteBetweenSpaces()
    ensures TimeScan(" 23:59  ") == Some(Found(TimeUnit.Structured(HM(23, 59)), 1, 6))
  {
    var w, rest := "23:59", "  ";
    LastMinuteWord();
    assert NoDelim(w, WordDelims);
    FindWordHead(w, rest, WordDelims, TimeWord);
    assert " 23:59  " == Spaces(1) + (w + rest) by {
      assert Spaces(1) == [' '];
    }
    TimeScanAfterSpaces(1, w + rest);
  }

  /** `11:00` is eleven o'clock: the minute segment `00` reads as 0. */
  lemma {:induction false} ElevenSharpWord()
    ensures TimeWord("11:00") == Some(TimeUnit.Structured(HM(11, 0)))
  {
    IntTextNoColon(11);
    ParseI8ToString(11);
    assert DigitsValue("00") == Some(0) by {
      assert "00"[..1] == "0" && "0"[..0] == [];
    }
    assert ParseI8("00") == Some(0);
    assert "11:00" == IntToString(11) + ":" + "00" + [];
    TimeHM(IntToString(11), "00", []);
  }

  /** One space before `11:00`: the true range `[1, 6)`. */
  lemma {:induction false} ElevenSharpAfterSpace()
    ensures TimeScan(" 11:00") == Some(Found(TimeUnit.Structured(HM(11, 0)), 1, 6))
  {
    assert " 11:00" == [' '] + "11:00";
    assert NoDelim("11:00", WordDelims);
    ElevenSharpWord();
    TimeAfterOneSpace(" 11:00", "11:00", TimeUnit.Structured(HM(11, 0)));
  }

  /** Nothing holds no time. */
  lemma {:induction false} EmptyNoTime()
    ensures TimeScan("") == None
  {
    TimeEmptyHour([]);
    assert Split([], WordDelims) == [[]];
  }

  /** A single space before a time word: the range is the word's true
      range. */
  lemma {:induction false} TimeAfterOneSpace(s: string, w: string, u: TimeUnit)
    requires s == [' '] + w
    requires NoDelim(w, WordDelims) && TimeWord(w) == Some(u)
    ensures TimeScan(s) == Some(Found(u, 1, 1 + |w|))
  {
    assert s == Spaces(1) + w by {
      assert Spaces(1) == [' '];
    }
    assert FindWord(w, WordDelims, TimeWord) == Some(Found(u, 0, |w|)) by {
      assert w + [] == w;
      FindWordHead(w, [], WordDelims, TimeWord);
    }
    TimeScanAfterSpaces(1, w);
  }

  /** One space before the hour: the true range `[1, 3)`. */
  lemma {:induction false} ElevenAfterSpace()
    ensures TimeScan(" 11") == Some(Found(TimeUnit.Structured(H(11)), 1, 3))
  {
    ElevenWord();
    TimeAfterOneSpace(" 11", "11", TimeUnit.Structured(H(11)));
  }

  lemma {:induction false} HalfPastMidnightAfterSpace()
    ensures TimeScan(" 0:30:12") == Some(Found(TimeUnit.Structured(HMS(0, 30, 12)), 1, 8))
  {
    assert " 0:30:12" == [' '] + "0:30:12";
    assert NoDelim("0:30:12", WordDelims);
    HalfPastMidnightWord();
    TimeAfterOneSpace(" 0:30:12", "0:30:12", TimeUnit.Structured(HMS(0, 30, 12)));
  }
}
