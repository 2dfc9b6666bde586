# nlcep temporal recogniser and event assembler, in Dafny

nlcep reads a short free-form line such as `John's birthday tomorrow, Temppeliaukion Kirkko`.
It returns an event: a summary, a date, an optional time of day and an optional location.
This project models the part that finds the date and time in the line and the part that cuts the line
around them. It proves properties of that model.

The model has five layers:

- **Words** (`words.dfy`, `numbers.dfy`, `text.dfy`) are the string primitives the scanners use:
  - `str::split` and `str::splitn` on one-character delimiters;
  - the running offset a scanner keeps while it walks the pieces;
  - the search for the first piece a parser accepts;
  - Rust's fixed-width integer parsing;
  - `trim`, `trim_start`, `trim_start_matches` and ASCII `to_lowercase`.
- **TemporalDate** (`date.dfy`, for `src/temporal/date.rs`) holds:
  - the date word parsers: `tomorrow`, `D.M.`, `D.M.Y` and the older `splitn` readings;
  - their resolution to a calendar date against an explicit "today";
  - `find_date` as a method with a loop, proved equal to a specification function (`DateScan`);
  - the properties of `DateScan` as lemmas.
- **TemporalTime** (`time.dfy`, for `src/temporal/time.rs`) holds:
  - the `H`, `H:M` and `H:M:S` parser and its conversion to a time of day;
  - `find_time` as a method with its two loops, proved equal to `TimeScan`, including its leading-space offset arithmetic.
- **Temporal** (`temporal.dfy`, for `src/temporal/mod.rs`) holds `find_datetime`. It runs the date scan, resolves the date,
  runs the time scan on the text after the date word, and adds the time's end onto the date's end.
- **Event** (`event.dfy`, for `src/lib.rs`) holds `NewEvent::parse_at_time` and `NewEvent::datetime`:
  - the summary is the trimmed text before the match;
  - the location pattern `\s*[@ | ,]\s+.+` is a hand-written predicate;
  - the location is trimmed and stripped of leading `@`/`,`;
  - errors are chosen as in the source.

`Calendar` (`calendar.dfy`) provides proleptic-Gregorian dates in jiff's range, times of day and the day successor.
`Wrappers` provides `Option` and `Result`.

Where the source panics, the model returns a value that says so:
- `unwrap`/`expect` on `Time::new`, on `civil::date` and on `checked_add`;
- `split_at` past the end of the string.

`DateUnitAsDate` and `TimeUnitAsTime` return `None`. `FindDateTime` returns `Panics`, and so does `ParseAtTime`.

## Model

| member | source | states |
|---|---|---|
| Numbers.ParseInt | src/temporal/date.rs:71-74 | Rust's radix-10 `parse` for a fixed-width type: an optional sign (`-` only for signed types) and digits; any value it returns lies in the type's range |
| Numbers.ParseI8 | src/temporal/time.rs:21 | `parse::<i8>()`: `ParseInt` over -128..127; its round trip is `ParseI8ToString` |
| Numbers.ParseI16 | src/temporal/date.rs:74 | `parse::<i16>()`: `ParseInt` over -32768..32767; its round trip is `ParseI16ToString` |
| Numbers.ParseU8 | src/temporal/date.rs:41-42 | `parse::<u8>()`: `ParseInt` over 0..255 with no `-`; its round trip is `ParseU8ToString` |
| Numbers.ParseU16 | src/temporal/date.rs:43 | `parse::<u16>()`: `ParseInt` over 0..65535 with no `-`; its round trip is `ParseU16ToString` |
| Numbers.ParseIntToString | src/temporal/date.rs:71-74 | every value of the type's range is read back from its decimal text |
| Numbers.ParseI8ToString | src/temporal/time.rs:21-27 | every `i8` reads back from its decimal text |
| Numbers.ParseI16ToString | src/temporal/date.rs:74 | every `i16` reads back from its decimal text |
| Numbers.ParseU8ToString | src/temporal/date.rs:41-42 | every `u8` reads back from its decimal text |
| Numbers.ParseU16ToString | src/temporal/date.rs:43 | every `u16` reads back from its decimal text |
| Numbers.ParseIntNonDigitEnd | src/temporal/time.rs:21 | a text whose last character is not a digit is rejected |
| Numbers.ParseIntEmpty | src/temporal/time.rs:21 | the empty text and a bare sign are rejected |
| Numbers.UnsignedParsesSigned | src/temporal/date.rs:41-43 | a text the unsigned parser accepts, with a value inside the signed range, gives the signed parser the same value |
| Words.Split | src/temporal/date.rs:108 | `split` always yields at least one piece |
| Words.SplitN | src/temporal/date.rs:40 | `splitn(n)` yields between 1 and n pieces |
| Words.SplitLength | src/temporal/date.rs:108-117 | the pieces with one delimiter between neighbours use up the whole string, so the running offset ends one past its end |
| Words.SplitPiece | src/temporal/date.rs:108-117 | piece i is the word of the string at the running offset `Offset(ws, i)` |
| Words.WordIndex | src/temporal/date.rs:108 | every delimiter-bounded word of the string is one of the pieces |
| Words.SplitConcat | src/temporal/date.rs:108 | a delimiter-free word then a delimiter: that word, then the pieces of the rest |
| Words.SplitHead | src/temporal/date.rs:70-71 | the first piece runs up to the first delimiter |
| Words.SplitHeadEmpty | src/temporal/time.rs:21-23 | the first piece is empty exactly when the string is empty or starts with a delimiter |
| Words.SplitTwo | src/temporal/date.rs:70-73 | the pieces of two delimiter-free fields and a rest |
| Words.SplitNConcat | src/temporal/date.rs:40-43 | `splitn(n)` of a field, a delimiter and a rest is that field then `splitn(n - 1)` of the rest |
| Words.SplitNNoDelim | src/temporal/date.rs:40 | a string without delimiters is one piece |
| Words.FindWordNone | src/temporal/date.rs:106-120 | the first-word search fails exactly when no word of the string parses |
| Words.FindWordSome | src/temporal/date.rs:106-120 | a found range is a word of the string, at exactly that range, that parses to the reported value; no earlier word parses |
| Words.FindWordAt | src/temporal/date.rs:108-115 | the search stops at the first accepted piece, at its running offset |
| Words.FindWordNoneAt | src/temporal/date.rs:119 | no accepted piece gives no result |
| Words.FindWordSkip | src/temporal/date.rs:108-117 | a rejected leading word and its delimiter move the rest's result by their length |
| Words.FindWordAfterSpaces | src/temporal/date.rs:108-117 | k leading spaces are k empty words; they move the result by k |
| Words.FindWordHead | src/temporal/date.rs:108-111 | an accepted leading word is found at `[0, len)` |
| Text.LeadingSpaces | src/temporal/time.rs:58-64 | the count of leading spaces: all spaces before it, no space at it |
| Text.LeadingSpacesOf | src/temporal/time.rs:58-64 | a run of k spaces followed by a non-space (or the end) counts as k |
| Text.ToLower | src/temporal/date.rs:17 | lower-casing keeps the length |
| Text.IsWhitespace | src/lib.rs:156 | `char::is_whitespace` (Unicode White_Space), also the class `\s` of the location pattern; `TrimEmpty` and `LocationNeedsWhitespace` rely on it |
| Text.Trim | src/lib.rs:156 | `str::trim`: leading then trailing whitespace dropped; `TrimSlice`, `TrimEmpty` and `TrimPadded` characterise it |
| Text.TrimStart | src/lib.rs:166 | `str::trim_start`: the leading whitespace dropped; `TrimStartOne` and `DropWhile`'s contract characterise it |
| Text.TrimStartMatches | src/lib.rs:165 | `str::trim_start_matches` for a set of characters: the leading run of them dropped; `TrimStartMatchesOne` and `DropWhile`'s contract characterise it |
| Text.DropWhile | src/lib.rs:163-166 | the result is a suffix; every dropped character satisfies the test; the first kept one does not |
| Text.DropLastWhile | src/lib.rs:163-164 | the result is a prefix; every dropped character satisfies the test; the last kept one does not |
| Text.TrimSlice | src/lib.rs:156 | `trim` yields the slice of its input after the leading whitespace, with no whitespace at either end and only whitespace after it |
| Text.TrimPrefix | src/lib.rs:153-156 | a trimmed prefix is a whitespace-free-ended piece of it, preceded only by whitespace |
| Text.TrimEmpty | src/lib.rs:156-157 | `trim` gives the empty string exactly when the input is all whitespace |
| Text.TrimPadded | src/lib.rs:156 | whitespace around a text whose ends are not whitespace is all `trim` removes |
| Text.TrimStartMatchesOne | src/lib.rs:165 | one `@`/`,` before a text that does not start with one is all `trim_start_matches` removes |
| Text.TrimStartOne | src/lib.rs:166 | one space before a text that does not start with whitespace is all `trim_start` removes |
| Text.DropWhileSkip | src/lib.rs:165-166 | a prefix whose characters all satisfy the test is dropped whole |
| Text.DropLastWhileSkip | src/lib.rs:164 | a suffix whose characters all satisfy the test is dropped whole |
| Calendar.DaysInMonth | src/temporal/date.rs:83 | 28 to 31 days; 29 exactly in February of a leap year |
| Calendar.MakeDate | src/temporal/date.rs:83-86 | jiff's `date(y, m, d)` succeeds exactly on a real date in range, and gives that date |
| Calendar.MakeTime | src/temporal/time.rs:40-42 | `Time::new(h, m, s, 0)` succeeds exactly on a time of day, and gives that time |
| Calendar.NextDay | src/temporal/date.rs:27-28 | the next day is a valid later date; it is missing exactly after the last representable date |
| Calendar.NextDayImmediate | src/temporal/date.rs:28 | no valid date lies strictly between a date and its next day |
| TemporalDate.ParseDateRelative | src/temporal/date.rs:16-21 | only an eight-letter word is `tomorrow` |
| TemporalDate.RelativeWords | src/temporal/date.rs:16-21 | a word is relative exactly when it spells `tomorrow` in any mix of case |
| TemporalDate.DateRelativeAsDate | src/temporal/date.rs:24-30 | `tomorrow` resolves to a valid date after today; it fails exactly on the last representable date |
| TemporalDate.TomorrowIsNextDay | src/temporal/date.rs:26-28 | `tomorrow` is the very next calendar day |
| TemporalDate.ParseDateYMD | src/temporal/date.rs:39-45 | `DateYMD::from_str`: `splitn(3, '.')`, day and month as `u8`, a required year as `u16`; `YMDNeedsYear`, `YMDRoundTrip` and `YMDAgreesWithStructured` characterise it |
| TemporalDate.ParseDateMD | src/temporal/date.rs:52-57 | `DateMD::from_str`: `splitn(3, '.')`, day and month as `u8`, stored month first; `MDRoundTrip` characterises it |
| TemporalDate.ParseDateStructured | src/temporal/date.rs:69-78 | `DateStructured::from_str`: day and month as `i8`, an optional non-empty year as `i16`; `StructuredNeedsDot`, `StructuredBadField`, `StructuredMD`, `StructuredYMD`, `StructuredBadYear` and `DateTextRoundTrip` characterise it |
| TemporalDate.DateWord | src/temporal/date.rs:110-115 | one word tried as `tomorrow` first, then as a dot-separated date; `DateTextWord` and `TomorrowWord` pin its two cases |
| TemporalDate.DateScan | src/temporal/date.rs:106-120 | `find_date`'s result as a function: the first word `DateWord` accepts, with its running-offset range; `FindDate` is proved equal to it, and `DateScanNone`, `DateScanSome` and `DateScanAt` characterise it |
| TemporalDate.DateStructuredAsDate | src/temporal/date.rs:81-89 | `YMD(y, m, d)` resolves to exactly (y, m, d) and `MD(m, d)` to (today's year, m, d); each only when that is a real date |
| TemporalDate.DateUnitAsDate | src/temporal/date.rs:98-104 | a resolved unit is a valid date; a relative one fails only on the last date |
| TemporalDate.StructuredNeedsDot | src/temporal/date.rs:70-72 | a word with no dot (`16`, `11:00`) is no dot-separated date |
| TemporalDate.StructuredBadField | src/temporal/date.rs:71-72 | a day or month field that is not an `i8` rejects the word |
| TemporalDate.StructuredMD | src/temporal/date.rs:70-77 | `D.M`, `D.M.` and `D.M..` give `MD(M, D)`: day first, month second |
| TemporalDate.StructuredYMD | src/temporal/date.rs:73-75 | `D.M.Y` followed by nothing or by more dot-separated segments gives `YMD(Y, M, D)`; later segments are never inspected |
| TemporalDate.StructuredBadYear | src/temporal/date.rs:73-74 | a present, non-empty year that is not an `i16` rejects the word |
| TemporalDate.DateTextRoundTrip | src/temporal/date.rs:69-78 | every dot-separated date reads back from its day-first text |
| TemporalDate.DateTextWord | src/temporal/date.rs:110-115 | the day-first text of a dot-separated date is never taken for `tomorrow` and reads back as that date |
| TemporalDate.YMDNeedsYear | src/temporal/date.rs:39-45 | the older `DateYMD` rejects `D.M` and `D.M.` |
| TemporalDate.YMDRoundTrip | src/temporal/date.rs:39-45 | every `DateYMD` reads back from `D.M.Y` |
| TemporalDate.MDRoundTrip | src/temporal/date.rs:52-57 | `DateMD` reads day then month and ignores what follows the second field |
| TemporalDate.TwoFieldsN | src/temporal/date.rs:40-43 | the fields `splitn(3, '.')` yields for two fields and a rest |
| TemporalDate.YMDAgreesWithStructured | src/temporal/date.rs:39-45 | on `D.M.Y` with values in the signed ranges, `DateYMD` and `DateStructured` agree |
| TemporalDate.FindDate | src/temporal/date.rs:106-120 | the loop returns exactly `DateScan(s)` |
| TemporalDate.DateScanAt | src/temporal/date.rs:107-117 | the scan reports the first date piece at its running offset |
| TemporalDate.DateScanNone | src/temporal/date.rs:106-120 | `find_date` returns None exactly when no word is a date |
| TemporalDate.DateScanSome | src/temporal/date.rs:106-120 | the reported range is exactly a word of the input, inside it, that is the reported date; no earlier word is a date |
| TemporalDate.EmptyNoDate | src/temporal/date.rs:70-72 | the empty word is no date |
| TemporalDate.JohnsNoDate | src/temporal/date.rs:70-72 | `John's` is no date |
| TemporalDate.BirthdayNoDate | src/temporal/date.rs:16-21 | `birthday` is no date |
| TemporalDate.TomorrowWord | src/temporal/date.rs:16-21 | `tomorrow` is the relative date |
| TemporalDate.ElevenOClockNoDate | src/temporal/date.rs:70-72 | `11:00` is no date |
| TemporalDate.SkipSpace | src/temporal/date.rs:108-117 | a leading space moves the result by one |
| TemporalDate.SkipSpaces | src/temporal/date.rs:108-117 | two leading spaces move the result by two |
| TemporalDate.SkipBirthday | src/temporal/date.rs:108-117 | `birthday` and three spaces move the result by 11 |
| TemporalDate.SkipJohns | src/temporal/date.rs:108-117 | `John's` and two spaces move the result by 8 |
| TemporalDate.SkipJohnsThenBirthday | src/temporal/date.rs:108-117 | `John's  birthday   ` moves the result by 19 |
| TemporalDate.SkipJohnsBirthday | src/temporal/date.rs:108-117 | ` John's  birthday   ` moves the result by 20 |
| TemporalDate.DateScanSpaced | src/temporal/date.rs:184-189 | ` John's  birthday   tomorrow ` gives `tomorrow` at (20, 28) |
| TemporalDate.NinetyNineWord | src/temporal/date.rs:73-75 | `22.9.1999` is `YMD(1999, 9, 22)` |
| TemporalDate.TwoThousandFourWord | src/temporal/date.rs:73-75 | `21.11.2004` is `YMD(2004, 11, 21)` |
| TemporalDate.YearlessWord | src/temporal/date.rs:73-77 | `22.9.` is `MD(9, 22)` |
| TemporalTime.ParseTimeStructured | src/temporal/time.rs:19-35 | `TimeStructured::from_str`: colon-separated `i8` hour, optional minute and second, with the empty-segment rules; `TimeH`, `TimeHM`, `TimeHMS`, the `TimeBad…` lemmas and `TimeTextRoundTrip` characterise it |
| TemporalTime.TimeWord | src/temporal/time.rs:70 | `word.parse::<TimeStructured>()` wrapped in `TimeUnit::Structured` |
| TemporalTime.TimeScan | src/temporal/time.rs:57-77 | `find_time`'s result as a function: the first word `TimeWord` accepts, its running-offset range moved by `TimeShift`; `FindTime` is proved equal to it, and `TimeScanNone`, `TimeScanSome` and `TimeScanAfterSpaces` characterise it |
| TemporalTime.TimeStructuredAsTime | src/temporal/time.rs:37-45 | `H(h)` gives h:00:00, `HM(h, m)` h:m:00 and `HMS(h, m, s)` h:m:s, each exactly when the hour is 0..23 and minute and second are 0..59 |
| TemporalTime.TimeUnitAsTime | src/temporal/time.rs:50-56 | a resolved unit is a valid time of day |
| TemporalTime.TimeShift | src/temporal/time.rs:58-67 | the initial offset (leading spaces less one) never exceeds the text length |
| TemporalTime.FindTime | src/temporal/time.rs:57-77 | the two loops return exactly `TimeScan(s)` |
| TemporalTime.TimeScanAt | src/temporal/time.rs:68-72 | the scan reports the first time piece at the shifted running offset |
| TemporalTime.TimeBadHour | src/temporal/time.rs:21 | an hour that is not an `i8` rejects the word |
| TemporalTime.TimeEmptyHour | src/temporal/time.rs:21 | an empty hour (empty word or leading colon) rejects the word |
| TemporalTime.TimeWordNotEmpty | src/temporal/time.rs:21 | a time word is never empty |
| TemporalTime.TimeH | src/temporal/time.rs:23-34 | `H`, `H:` and `H::` and longer are `H(h)`, whatever follows an empty minute |
| TemporalTime.TimeHM | src/temporal/time.rs:23-32 | `H:M`, `H:M:` and `H:M::…` are `HM(h, m)` |
| TemporalTime.TimeBadMinute | src/temporal/time.rs:24 | a present, non-empty minute that is not an `i8` rejects the word |
| TemporalTime.TimeHMS | src/temporal/time.rs:26-29 | `H:M:S` followed by nothing or more segments is `HMS(h, m, s)`; later segments are ignored |
| TemporalTime.TimeBadSecond | src/temporal/time.rs:27 | a present, non-empty second that is not an `i8` rejects the word |
| TemporalTime.TimeTextRoundTrip | src/temporal/time.rs:19-35 | every time reads back from its colon-joined text |
| TemporalTime.TimeScanNone | src/temporal/time.rs:68-76 | `find_time` returns None exactly when no word is a time |
| TemporalTime.TimeScanSome | src/temporal/time.rs:57-77 | the reported range has the word's length and lies `TimeShift` past a word that is the reported time; no earlier word is a time; the word starts after the leading spaces |
| TemporalTime.TimeScanFound | src/temporal/time.rs:65-71 | the reported range is the first time word's range moved by `TimeShift` |
| TemporalTime.TimeWordAfterSpaces | src/temporal/time.rs:58-68 | the first time word starts after the leading spaces |
| TemporalTime.TimeScanAfterSpaces | src/temporal/time.rs:58-74 | after k leading spaces the result is the rest's, moved by 2k − 1 (by 0 when k = 0) |
| TemporalTime.TimeScanExact | src/temporal/time.rs:58-71 | with at most one leading space the reported range is exactly the word's |
| TemporalTime.TimeScanOvershoot | src/temporal/time.rs:58-71 | with k ≥ 2 leading spaces both offsets lie k − 1 past the word |
| TemporalTime.JunkIsNoTime | src/temporal/time.rs:21 | `iaksjdk` is no time |
| TemporalTime.HalfPastOne | src/temporal/time.rs:23-32 | `13:30` alone is `HM(13, 30)` at (0, 5) |
| TemporalTime.JunkThenHalfPastOne | src/temporal/time.rs:68-74 | `iaksjdk 13:30` skips the junk word: (8, 13) |
| TemporalTime.TimeScanAfterJunk | src/temporal/time.rs:127-133 | ` iaksjdk 13:30` gives (9, 14) |
| TemporalTime.TimeScanOvershootExample | src/temporal/time.rs:58-71 | `  5` (the word at (2, 3)) is reported at (3, 4) |
| TemporalTime.ElevenWord | src/temporal/time.rs:21-34 | `11` is `H(11)` |
| TemporalTime.HalfPastMidnightWord | src/temporal/time.rs:26-29 | `0:30:12` is `HMS(0, 30, 12)` |
| TemporalTime.LastMinuteWord | src/temporal/time.rs:23-32 | `23:59` is `HM(23, 59)` |
| TemporalTime.LastMinuteBetweenSpaces | src/temporal/time.rs:120-126 | ` 23:59  ` gives `HM(23, 59)` at (1, 6) |
| TemporalTime.ElevenSharpWord | src/temporal/time.rs:23-32 | `11:00` is `HM(11, 0)`: the minute `00` reads as 0 |
| TemporalTime.ElevenSharpAfterSpace | src/temporal/time.rs:58-71 | ` 11:00` gives (1, 6) |
| TemporalTime.EmptyNoTime | src/temporal/time.rs:68-76 | the empty text holds no time |
| TemporalTime.TimeAfterOneSpace | src/temporal/time.rs:58-71 | one space before a time word: the word's true range |
| TemporalTime.ElevenAfterSpace | src/temporal/time.rs:58-71 | ` 11` gives (1, 3) |
| TemporalTime.HalfPastMidnightAfterSpace | src/temporal/time.rs:58-71 | ` 0:30:12` gives (1, 8) |
| Temporal.AfterDate | src/temporal/mod.rs:22 | the time scan sees exactly the text after the date word |
| Temporal.FindDateTime | src/temporal/mod.rs:20-33 | None exactly when `find_date` is None; start is the date's start; the date is the date word's resolution; with no time, end is the date's end and the time is midnight; with a time, end = date end + time end and the time is the time word's resolution |
| Temporal.DateTimePanics | src/temporal/mod.rs:24-28 | the combiner panics exactly when the date word names no date or a following time word names no time of day |
| Temporal.DateTimeWithoutTime | src/temporal/mod.rs:26-31 | no time word after the date: the date at midnight over the date word's range |
| Temporal.DateTimeSpan | src/temporal/mod.rs:20-32 | with at most one leading space after the date: start ≤ date end ≤ end ≤ \|s\|; the range starts at the date word; it ends at the date word (midnight) or at the end of a later time word that resolves to the time |
| Temporal.TimeAfter | src/temporal/mod.rs:22-27 | a time found with exact offsets after the date is a time word of the whole string at the moved offsets |
| Temporal.DateTimeAtStart | src/temporal/mod.rs:20-32 | a date word at the start: range from 0 to its end, plus the time's end when a time follows |
| Temporal.DateOnly | src/temporal/mod.rs:39-49 | `21.11.2004` is 2004-11-21 00:00 over (0, 10) |
| Temporal.DateAndMinutes | src/temporal/mod.rs:51-60 | `22.9.1999 11:00` is 1999-09-22 11:00 over (0, 15) |
| Temporal.DateAndHour | src/temporal/mod.rs:61-71 | `22.9.1999 11` is 1999-09-22 11:00 over (0, 12) |
| Temporal.YearlessAndHour | src/temporal/mod.rs:73-81 | `22.9. 11` is 22 September of today's year at 11:00 over (0, 8) |
| Temporal.TomorrowWithSeconds | src/temporal/mod.rs:83-91 | `tomorrow 0:30:12` is the next day at 00:30:12 over (0, 16) |
| Temporal.OvershootPastEnd | src/temporal/mod.rs:25-28 | `tomorrow  5` (11 characters) reports end 12, one past the string |
| Temporal.TimeBeforeDate | src/temporal/mod.rs:21-26 | in `11:00 tomorrow` the time before the date is not read: tomorrow at midnight over (6, 14) |
| Event.LocationPattern | src/lib.rs:161 | `is_match` of the location pattern: somewhere a character of its bracket class (`@`, space, vertical bar, comma), one or more whitespace characters and a character other than a line feed; `LocationNeedsWhitespace` and `SpacesLocation` characterise it |
| Event.LocationText | src/lib.rs:163-166 | the `trim`, `trim_start_matches(['@', ','])`, `trim_start` chain; `LocationTextCut` and `LocationCutIsText` characterise it |
| Event.ParseAtTime | src/lib.rs:144-177 | an error from the recogniser is passed on; no match is `MissingTime`; a panic exactly when an offset lies past the end; an event copies date and time, has no duration and a non-empty summary; the only other errors are `MissingTime` and `MissingSummary` |
| Event.EventDateTime | src/lib.rs:179-182 | the event's date at its time, or at midnight when it has none |
| Event.SummaryMissing | src/lib.rs:153-171 | given an in-range match, the outcome is an event or `MissingSummary`, the latter exactly when the text before the match is all whitespace |
| Event.SummaryBeforeMatch | src/lib.rs:153-158 | the summary is a piece of the text before the match, preceded only by whitespace, followed only by whitespace, with no whitespace at either end |
| Event.LocationTextCut | src/lib.rs:163-166 | the location cut keeps the text less, in order, all its leading whitespace, all the `@` and `,` after that, the whitespace after those, and its trailing whitespace; what is kept neither starts nor ends with whitespace (so ` @ Memory Plaza` keeps `Memory Plaza` and ` @ @x` keeps `@x`) |
| Event.LocationCutUnique | src/lib.rs:163-166 | that description leaves at most one text: two cuts of the same text keep the same text |
| Event.LocationCutIsText | src/lib.rs:163-166 | any text that description admits is exactly what the location cut keeps |
| Event.LocationAfterMatch | src/lib.rs:161-168 | an event has a location exactly when the pattern matches the text after the match; the location is then that text cut as `LocationTextCut` describes, and equals every text such a cut keeps |
| Event.LocationNeedsWhitespace | src/lib.rs:161 | text without whitespace never matches the location pattern |
| Event.SpacesLocation | src/lib.rs:161-167 | spaces alone: fewer than three never match; three or more match and leave an empty location |
| Event.SpacesAfterMatch | src/lib.rs:161-168 | only spaces after the match: one or two give no location, three or more an empty one |
| Event.ParsedDateTime | src/lib.rs:170-182 | a parsed event's date-time is the match's date at its time, or at midnight |
| Event.EventFromParts | src/lib.rs:153-176 | text before the match, the match and text after it give the trimmed summary and the location the pattern admits |
| Event.LocationAfterDelimiter | src/lib.rs:161-167 | whitespace, `@` or `,`, a space and a place name with no whitespace at its ends: the pattern matches and the location is the place name |
| Event.SummaryThenPlace | src/lib.rs:144-177 | summary, space, date-time text, optional whitespace, `@` or `,`, space, place: the event has that summary and that place |
| Event.RelativeWithLocation | src/lib.rs:323-333 | `John's birthday tomorrow, Temppeliaukion Kirkko` with the match (16, 24): summary `John's birthday`, location `Temppeliaukion Kirkko` |
| Event.AtWithLocation | src/lib.rs:290-299 | `John's birthday 18.11. @ Memory Plaza` with the match (16, 22): location `Memory Plaza` |
| Event.HourWithoutLocation | src/lib.rs:251-262 | `John's birthday 18.11. 16` with the match (16, 25): no location, and the event's date-time has hour 16 |
| Event.NothingBeforeMatch | src/lib.rs:205-213 | `tomorrow 11:00` matched at (0, 14) is `MissingSummary` |

## Left out

- `src/wasm.rs` (JS/WASM bindings) and `src/bin/nlcep.rs` (argument joining and printing) are I/O glue, not part of this model.
- Clock reads (`Zoned::now()`) become an explicit `today` argument. Time zones are dropped, and `checked_add(1.day())` is the civil-date successor `Calendar.NextDay`.
- `PartialEq for NewEvent` compares durations through jiff's `Span::compare`, which is not part of this model. `Span` is a placeholder type because the assembler always sets `duration` to None.
- Serde/tsify derives and the `thiserror` messages are serialisation and formatting only.
- The `regex` engine: only the one location pattern of `src/lib.rs:161` is modelled, as `Event.LocationPattern`.
- Text.ToLower: lower-cases ASCII letters only, not Unicode `to_lowercase`. Text.IsWhitespace does follow Unicode White_Space.
- Strings are sequences of characters, and offsets index them. This matches Rust's byte offsets only for ASCII text. The char-boundary panic of `split_at` on multi-byte text is not modelled.
- Calendar.MakeTime: nanoseconds are always 0 in the source, and the model has none.
- Event.ParseAtTime: `src/lib.rs:152` calls `find_datetime(s, now, false)` and destructures a `DateTimeMatch`, but `src/temporal/mod.rs:20` takes one argument and returns a tuple. The two are not reconciled here. The assembler takes the recogniser's result as an abstract `Result<Option<DateTimeMatch>, EventParseError>`, so it is not composed with `Temporal.FindDateTime`.
- TemporalDate.DateStructuredAsDate: a year-less date always takes today's year, with no move to the next year (`src/temporal/date.rs:84-87`).
- TemporalTime.TimeScan: words are split on space and comma only (`src/temporal/time.rs:68`).
- Panics are values: `None` from the `as_date`/`as_time` models, and `Panics` from `FindDateTime` and `ParseAtTime`. They are not process aborts.
