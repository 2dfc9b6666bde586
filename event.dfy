/** The event assembler of src/lib.rs: `NewEvent::parse_at_time` slices the
    input at the date-time range a recogniser reports, takes the trimmed
    text before it as the summary and, when one fixed pattern matches the
    text after it, a location; `NewEvent::datetime` joins date and time. */
module Event {
  import opened Wrappers
  import opened Text
  import opened Calendar

  /** The record `find_datetime` hands to the assembler: the resolved date,
      the time of day if one was found, and the range it covers. */
  datatype DateTimeMatch = DateTimeMatch(date: Date, time: Option<Time>, start: nat, end: nat)

  datatype EventParseError =
    | MissingTime
    | InvalidTime
    | AmbiguousTime
    | MissingSummary
    | AmbiguousDuration

  /** jiff's `Span` plays no part here: the assembler never sets a
      duration. */
  type Span = ()

  datatype NewEvent = NewEvent(
    summary: string,
    date: Date,
    time: Option<Time>,
    location: Option<string>,
    duration: Option<Span>)

  /** What `parse_at_time` does: it returns an event, returns an error, or
      panics because `split_at` is given an offset past the end of the
      text. */
  datatype Outcome =
    | Parsed(event: NewEvent)
    | Failed(error: EventParseError)
    | Panics

  /** The bracket class `[@ | ,]` of the location pattern: it holds the
      characters `@`, space, `|` and `,`. */
  const LocationDelims: set<char> := {'@', ' ', '|', ','}

  /** `t[i]` is in the bracket class, `t[i+1..j]` is one or more whitespace
      characters, and `t[j]` is a character other than a line feed. */
  predicate DelimitedAt(t: string, i: int, j: int) {
    && 0 <= i && i + 2 <= j < |t|
    && t[i] in LocationDelims
    && (forall k :: i < k < j ==> IsWhitespace(t[k]))
    && t[j] != '\n'
  }

  /** `is_match` of `\s*[@ | ,]\s+.+` anywhere in `t`: the leading `\s*`
      may match nothing and `.+` needs only its first character, so a match
      is a delimiter, a run of whitespace and one character that is not a
      line feed. */
  predicate LocationPattern(t: string) {
    exists i, j | 0 <= i < j < |t| :: DelimitedAt(t, i, j)
  }

  /** The location as `parse_at_time` cuts it from the text after the
      match: trimmed, stripped of leading `@` and `,`, trimmed at the start
      again. */
  function LocationText(after: string): string {
    TrimStart(TrimStartMatches(Trim(after), {'@', ','}))
  }

  /** `NewEvent::parse_at_time`, given what `find_datetime` returned. */
  function ParseAtTime(s: string, found: Result<Option<DateTimeMatch>, EventParseError>): (r: Outcome)
    ensures found.Err? ==> r == Failed(found.error)
    ensures found == Ok(None) ==> r == Failed(MissingTime)
    ensures r.Panics? <==>
              found.Ok? && found.value.Some? && (found.value.value.start > |s| || found.value.value.end > |s|)
    ensures r.Parsed? ==>
              && found.Ok? && found.value.Some?
              && r.event.date == found.value.value.date
              && r.event.time == found.value.value.time
              && r.event.duration == None
              && r.event.summary != []
    ensures r.Failed? && found.Ok? ==> r.error == MissingTime || r.error == MissingSummary
  {
    match found
    case Err(e) => Failed(e)
    case Ok(None) => Failed(MissingTime)
    case Ok(Some(m)) =>
      if m.start > |s| || m.end > |s| then Panics
      else
        var summary := Trim(s[..m.start]);
        var after := s[m.end..];
        var location := if LocationPattern(after) then Some(LocationText(after)) else None;
        if summary == [] then Failed(MissingSummary)
        else Parsed(NewEvent(summary, m.date, m.time, location, None))
  }

  /** `NewEvent::datetime`: the date at the event's time, or at midnight
      when it has none. */
  function EventDateTime(e: NewEvent): (r: DateTime)
    ensures r.date == e.date
    ensures e.time.Some? ==> r.time == e.time.value
    ensures e.time.None? ==> r.time == Midnight
  {
    match e.time
    case None => DateTime(e.date, Midnight)
    case Some(time) => DateTime(e.date, time)
  }

  // ---------------------------------------------------------------------
  // Summary and location

  /** Given a match inside the text, the outcome is an event or a missing
      summary, and the summary is missing exactly when the text before the
      match is all whitespace. */
  lemma {:induction false} SummaryMissing(s: string, m: DateTimeMatch)
    requires m.start <= |s| && m.end <= |s|
    ensures var r := ParseAtTime(s, Ok(Some(m)));
            && (r.Parsed? || r == Failed(MissingSummary))
            && (r == Failed(MissingSummary) <==> forall j :: 0 <= j < m.start ==> IsWhitespace(s[j]))
  {
    var before := s[..m.start];
    TrimEmpty(before);
    assert forall j :: 0 <= j < m.start ==> s[j] == before[j];
  }

  /** The summary of an event is the text before the match less the
      whitespace around it. */
  lemma {:induction false} SummaryBeforeMatch(s: string, m: DateTimeMatch)
    requires m.start <= |s| && m.end <= |s|
    requires ParseAtTime(s, Ok(Some(m))).Parsed?
    ensures var e := ParseAtTime(s, Ok(Some(m))).event;
            exists i :: TrimmedPiece(s[..m.start], e.summary, i) && forall j :: 0 <= j < i ==> IsWhitespace(s[j])
  {
    TrimPrefix(s, m.start);
    assert ParseAtTime(s, Ok(Some(m))).event.summary == Trim(s[..m.start]);
  }

  /** `r`, at `i`, is what is left of `t` once three runs are cut off its
      front, `t[..a]`, `t[a..b]` and `t[b..i]`, and the whitespace after
      `r`: the first run is all of the leading whitespace, the second all of
      the `@` and `,` that follow it, the third the whitespace after those;
      `r` neither starts nor ends with whitespace. */
  predicate LocationCut(t: string, r: string, a: int, b: int, i: int) {
    && 0 <= a <= b <= i
    && TrimmedPiece(t, r, i)
    && (forall j :: 0 <= j < a ==> IsWhitespace(t[j]))
    && (a < |t| ==> !IsWhitespace(t[a]))
    && (forall j :: a <= j < b ==> t[j] == '@' || t[j] == ',')
    && (b < |t| ==> t[b] != '@' && t[b] != ',')
    && (forall j :: b <= j < i ==> IsWhitespace(t[j]))
  }

  /** `r`, at `i` in `t`, ends where `t` ends but for whitespace, and its
      last character is not whitespace. */
  predicate EndsPiece(t: string, r: string, i: int) {
    && 0 <= i && i + |r| <= |t| && t[i..i + |r|] == r
    && (forall j :: i + |r| <= j < |t| ==> IsWhitespace(t[j]))
    && (|r| > 0 ==> !IsWhitespace(r[|r| - 1]))
  }

  /** A tail `y` of a trimmed piece of `t`, in `t`'s positions, ends where
      the piece ends; past the piece there is only whitespace. */
  lemma {:induction false} TailOfPiece(t: string, r: string, a: int, y: string, b: int)
    requires TrimmedPiece(t, r, a)
    requires a <= b && b + |y| == a + |r| && t[b..a + |r|] == y
    ensures EndsPiece(t, y, b)
    ensures a + |r| <= b < |t| ==> IsWhitespace(t[b])
  {
    if |y| > 0 {
      assert y[|y| - 1] == t[a + |r| - 1] == r[|r| - 1];
    }
  }

  /** Stripping `@` and `,` off a trimmed piece of `t`, in `t`'s
      positions. */
  lemma {:induction false} StripCut(t: string, r: string, a: int, y: string, b: int)
    requires TrimmedPiece(t, r, a)
    requires y == TrimStartMatches(r, {'@', ','}) && b == a + |r| - |y|
    ensures forall j :: a <= j < b ==> t[j] == '@' || t[j] == ','
    ensures b < |t| ==> t[b] != '@' && t[b] != ','
    ensures EndsPiece(t, y, b)
  {
    var p := OneOf({'@', ','});
    DropWhileIn(t, r, a, p, y, b);
    forall j | a <= j < b
      ensures t[j] == '@' || t[j] == ','
    {
      assert p(t[j]);
    }
    TailOfPiece(t, r, a, y, b);
    if b < a + |r| {
      assert !p(t[b]);
    }
  }

  /** A tail `z` of an `EndsPiece` that starts with no whitespace is a
      trimmed piece of `t`. */
  lemma {:induction false} TailOfEnds(t: string, y: string, b: int, z: string, i: int)
    requires EndsPiece(t, y, b)
    requires b <= i && i + |z| == b + |y| && t[i..b + |y|] == z
    requires i < b + |y| ==> !IsWhitespace(t[i])
    ensures TrimmedPiece(t, z, i)
  {
    if |z| > 0 {
      assert z[0] == t[i];
      assert z[|z| - 1] == t[b + |y| - 1] == y[|y| - 1];
    }
  }

  /** Trimming the start of a piece that ends where `t` ends but for
      whitespace leaves a trimmed piece, in `t`'s positions. */
  lemma {:induction false} SpaceCut(t: string, y: string, b: int, z: string, i: int)
    requires EndsPiece(t, y, b)
    requires z == TrimStart(y) && i == b + |y| - |z|
    ensures forall j :: b <= j < i ==> IsWhitespace(t[j])
    ensures TrimmedPiece(t, z, i)
  {
    DropWhileIn(t, y, b, IsWhitespace, z, i);
    TailOfEnds(t, y, b, z, i);
  }

  /** Trimming `t`, in `t`'s positions: all of the leading whitespace
      goes, and a trimmed piece is left. */
  lemma {:induction false} TrimCut(t: string, r: string, a: int)
    requires r == Trim(t) && a == |t| - |TrimStart(t)|
    ensures forall j :: 0 <= j < a ==> IsWhitespace(t[j])
    ensures a < |t| ==> !IsWhitespace(t[a])
    ensures TrimmedPiece(t, r, a)
  {
    TrimSlice(t);
    assert t[0..|t|] == t;
    DropWhileIn(t, t, 0, IsWhitespace, TrimStart(t), a);
  }

  /** `LocationText` cuts its input as `LocationCut` describes. */
  lemma {:induction false} LocationTextCut(t: string)
    ensures exists a, b, i :: LocationCut(t, LocationText(t), a, b, i)
  {
    var r := Trim(t);
    var a := |t| - |TrimStart(t)|;
    TrimCut(t, r, a);
    var y := TrimStartMatches(r, {'@', ','});
    var b := a + |r| - |y|;
    StripCut(t, r, a, y, b);
    var z := TrimStart(y);
    var i := b + |y| - |z|;
    SpaceCut(t, y, b, z, i);
    assert z == LocationText(t);
    assert LocationCut(t, z, a, b, i);
  }

  /** `LocationCut` leaves one text at most: the runs it cuts off are as
      long as they can be, so they are the same for any two cuts. */
  lemma {:induction false} LocationCutUnique(t: string, r1: string, a1: int, b1: int, i1: int,
                                             r2: string, a2: int, b2: int, i2: int)
    requires LocationCut(t, r1, a1, b1, i1) && LocationCut(t, r2, a2, b2, i2)
    ensures r1 == r2
  {
    assert a1 == a2 && b1 == b2;
    if |r1| > 0 {
      FirstKept(t, r1, b1, i1, r2, i2);
    } else if |r2| > 0 {
      FirstKept(t, r2, b1, i2, r1, i1);
    }
  }

  /** After whitespace from `b` on, a non-empty trimmed piece starts at the
      first character that is not whitespace, so no other trimmed piece
      preceded by whitespace from `b` on starts elsewhere or is empty. */
  lemma {:induction false} FirstKept(t: string, r1: string, b: int, i1: int, r2: string, i2: int)
    requires 0 <= b <= i1 && TrimmedPiece(t, r1, i1) && forall j :: b <= j < i1 ==> IsWhitespace(t[j])
    requires b <= i2 && TrimmedPiece(t, r2, i2) && forall j :: b <= j < i2 ==> IsWhitespace(t[j])
    requires |r1| > 0
    ensures |r2| > 0 && i2 == i1
  {
    assert t[i1] == r1[0];
  }

  /** Any cut as `LocationCut` describes gives what `LocationText` keeps. */
  lemma {:induction false} LocationCutIsText(t: string, r: string, a: int, b: int, i: int)
    requires LocationCut(t, r, a, b, i)
    ensures r == LocationText(t)
  {
    LocationTextCut(t);
    var a', b', i' :| LocationCut(t, LocationText(t), a', b', i');
    LocationCutUnique(t, r, a, b, i, LocationText(t), a', b', i');
  }

  /** Given a match inside the text and an event as the outcome, the event
      has a location exactly when the location pattern matches the text
      after the match, and the location is then the text after the match
      less its leading whitespace, the `@` and `,` after that, the
      whitespace after those, and its trailing whitespace. */
  lemma {:induction false} LocationAfterMatch(s: string, m: DateTimeMatch)
    requires m.start <= |s| && m.end <= |s|
    requires ParseAtTime(s, Ok(Some(m))).Parsed?
    ensures var e := ParseAtTime(s, Ok(Some(m))).event;
            && (e.location.Some? <==> LocationPattern(s[m.end..]))
            && (e.location.Some? ==> exists a, b, i :: LocationCut(s[m.end..], e.location.value, a, b, i))
            && (forall r, a, b, i :: e.location.Some? && LocationCut(s[m.end..], r, a, b, i) ==> e.location == Some(r))
  {
    var after := s[m.end..];
    var e := ParseAtTime(s, Ok(Some(m))).event;
    assert e.location == if LocationPattern(after) then Some(LocationText(after)) else None;
    LocationTextCut(after);
    forall r, a, b, i | e.location.Some? && LocationCut(after, r, a, b, i)
      ensures e.location == Some(r)
    {
      LocationCutIsText(after, r, a, b, i);
    }
  }

  /** The pattern needs whitespace after its delimiter: text without any
      whitespace never holds a location. */
  lemma {:induction false} LocationNeedsWhitespace(t: string)
    requires forall k :: 0 <= k < |t| ==> !IsWhitespace(t[k])
    ensures !LocationPattern(t)
  {
    forall i, j | 0 <= i < j < |t|
      ensures !DelimitedAt(t, i, j)
    {
      if i + 1 < |t| {
        assert !IsWhitespace(t[i + 1]);
      }
    }
  }

  /** Spaces alone: one or two match nothing, three or more match the
      pattern (the character `.+` needs may itself be a space) and leave an
      empty location. */
  lemma {:induction false} SpacesLocation(t: string)
    requires forall k :: 0 <= k < |t| ==> t[k] == ' '
    ensures |t| < 3 ==> !LocationPattern(t)
    ensures |t| >= 3 ==> LocationPattern(t) && LocationText(t) == []
  {
    if |t| >= 3 {
      assert DelimitedAt(t, 0, 2);
      assert Trim(t) == [] by {
        assert t == [] + [] + t;
        TrimPadded([], [], t);
      }
    }
  }

  /** Spaces alone after the match: one or two give no location, three or
      more an empty one. */
  lemma {:induction false} SpacesAfterMatch(s: string, m: DateTimeMatch)
    requires m.start <= |s| && m.end <= |s|
    requires ParseAtTime(s, Ok(Some(m))).Parsed?
    requires forall k :: m.end <= k < |s| ==> s[k] == ' '
    ensures var e := ParseAtTime(s, Ok(Some(m))).event;
            && (|s| - m.end < 3 ==> e.location == None)
            && (|s| - m.end >= 3 ==> e.location == Some([]))
  {
    SpacesLocation(s[m.end..]);
  }

  /** The date and time of a parsed event are those of the match, with
      midnight standing in for a missing time. */
  lemma {:induction false} ParsedDateTime(s: string, m: DateTimeMatch)
    requires ParseAtTime(s, Ok(Some(m))).Parsed?
    ensures var dt := EventDateTime(ParseAtTime(s, Ok(Some(m))).event);
            && dt.date == m.date
            && dt.time == (if m.time.Some? then m.time.value else Midnight)
  {
  }

  // ---------------------------------------------------------------------
  // Worked cases

  /** An event assembled from the text around a match, given its trimmed
      summary and its location. */
  lemma {:induction false} EventFromParts(s: string, m: DateTimeMatch, before: string, word: string, after: string,
                                          summary: string, location: Option<string>)
    requires s == before + word + after && m.start == |before| && m.end == |before| + |word|
    requires Trim(before) == summary && summary != []
    requires location.Some? ==> LocationPattern(after) && LocationText(after) == location.value
    requires location.None? ==> !LocationPattern(after)
    ensures ParseAtTime(s, Ok(Some(m))) == Parsed(NewEvent(summary, m.date, m.time, location, None))
  {
    assert s[..m.start] == before && s[m.end..] == after;
  }

  /** An `@` or a comma, then a space, then a place name that neither
      starts nor ends with whitespace: the place name is the location. */
  lemma {:induction false} LocationAfterDelimiter(lead: string, d: char, place: string)
    requires forall k :: 0 <= k < |lead| ==> IsWhitespace(lead[k])
    requires d == '@' || d == ','
    requires place != [] && !IsWhitespace(place[0]) && !IsWhitespace(place[|place| - 1])
    ensures LocationPattern(lead + [d, ' '] + place)
    ensures LocationText(lead + [d, ' '] + place) == place
  {
    var t := lead + [d, ' '] + place;
    var x := [d] + ([' '] + place);
    assert t == lead + x + [];
    assert DelimitedAt(t, |lead|, |lead| + 2);
    assert Trim(t) == x by {
      TrimPadded(lead, x, []);
    }
    assert TrimStartMatches(x, {'@', ','}) == [' '] + place by {
      TrimStartMatchesOne(d, [' '] + place, {'@', ','});
    }
    TrimStartOne(place);
  }

  /** Non-empty, and neither end is whitespace: `Trim` leaves it as it is. */
  predicate Unpadded(t: string) {
    t != [] && !IsWhitespace(t[0]) && !IsWhitespace(t[|t| - 1])
  }

  lemma {:induction false} RelativeText()
    ensures "John's birthday tomorrow, Temppeliaukion Kirkko" ==
            "John's birthday" + " " + "tomorrow" + [] + [',', ' '] + "Temppeliaukion Kirkko"
  {
  }

  lemma {:induction false} AtText()
    ensures "John's birthday 18.11. @ Memory Plaza" == "John's birthday" + " " + "18.11." + " " + ['@', ' '] + "Memory Plaza"
  {
  }

  lemma {:induction false} JohnsUnpadded()
    ensures |"John's birthday"| == 15 && Unpadded("John's birthday")
  {
  }

  lemma {:induction false} KirkkoUnpadded()
    ensures Unpadded("Temppeliaukion Kirkko")
  {
  }

  lemma {:induction false} PlazaUnpadded()
    ensures Unpadded("Memory Plaza")
  {
  }

  lemma {:induction false} JohnsSummary()
    ensures Trim("John's birthday ") == "John's birthday"
  {
    TrimPadded([], "John's birthday", " ");
    assert [] + "John's birthday" + " " == "John's birthday ";
  }

  /** Summary, space, date-time text, optional whitespace, `@` or comma,
      space, place name: the event has that summary and that place. */
  lemma {:induction false} SummaryThenPlace(s: string, summary: string, word: string, lead: string, d: char,
                                            place: string, date: Date, time: Option<Time>, start: nat, end: nat)
    requires s == summary + " " + word + lead + [d, ' '] + place
    requires start == |summary| + 1 && end == start + |word|
    requires Unpadded(summary)
    requires forall k :: 0 <= k < |lead| ==> IsWhitespace(lead[k])
    requires d == '@' || d == ','
    requires Unpadded(place)
    ensures ParseAtTime(s, Ok(Some(DateTimeMatch(date, time, start, end)))) ==
              Parsed(NewEvent(summary, date, time, Some(place), None))
  {
    var before, after := summary + " ", lead + [d, ' '] + place;
    assert s == before + word + after;
    assert Trim(before) == summary by {
      assert before == [] + summary + " ";
      TrimPadded([], summary, " ");
    }
    LocationAfterDelimiter(lead, d, place);
    EventFromParts(s, DateTimeMatch(date, time, start, end), before, word, after, summary, Some(place));
  }

  /** The summary before the date word and the location after the comma
      that follows it. */
  lemma {:induction false} RelativeWithLocation(date: Date)
    ensures ParseAtTime("John's birthday tomorrow, Temppeliaukion Kirkko", Ok(Some(DateTimeMatch(date, None, 16, 24)))) ==
              Parsed(NewEvent("John's birthday", date, None, Some("Temppeliaukion Kirkko"), None))
  {
    RelativeText();
    JohnsUnpadded();
    KirkkoUnpadded();
    SummaryThenPlace("John's birthday tomorrow, Temppeliaukion Kirkko", "John's birthday", "tomorrow", [], ',',
                     "Temppeliaukion Kirkko", date, None, 16, 24);
  }

  /** The same with an at sign between spaces. */
  lemma {:induction false} AtWithLocation(date: Date)
    ensures ParseAtTime("John's birthday 18.11. @ Memory Plaza", Ok(Some(DateTimeMatch(date, None, 16, 22)))) ==
              Parsed(NewEvent("John's birthday", date, None, Some("Memory Plaza"), None))
  {
    AtText();
    JohnsUnpadded();
    PlazaUnpadded();
    SummaryThenPlace("John's birthday 18.11. @ Memory Plaza", "John's birthday", "18.11.", " ", '@',
                     "Memory Plaza", date, None, 16, 22);
  }

  /** A match that ends the text leaves no location, and the event's
      date-time carries the matched hour. */
  lemma {:induction false} HourWithoutLocation(date: Date)
    ensures var r := ParseAtTime("John's birthday 18.11. 16", Ok(Some(DateTimeMatch(date, Some(Time(16, 0, 0)), 16, 25))));
            && r == Parsed(NewEvent("John's birthday", date, Some(Time(16, 0, 0)), None, None))
            && EventDateTime(r.event) == DateTime(date, Time(16, 0, 0))
  {
    var s, before, word := "John's birthday 18.11. 16", "John's birthday ", "18.11. 16";
    assert s == before + word + [];
    JohnsSummary();
    EventFromParts(s, DateTimeMatch(date, Some(Time(16, 0, 0)), 16, 25), before, word, [], "John's birthday", None);
  }

  /** Nothing before the match: no summary. */
  lemma {:induction false} NothingBeforeMatch(date: Date, time: Time)
    ensures ParseAtTime("tomorrow 11:00", Ok(Some(DateTimeMatch(date, Some(time), 0, 14)))) == Failed(MissingSummary)
  {
    assert "tomorrow 11:00"[..0] == [];
  }
}
