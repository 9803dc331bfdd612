/**
  The playlist description and title builder: from an episode record it makes
  the short description of the playlist ("Friday at 9:00am on WERA with
  Lauree", "At TV Eye") and its title ("Spin Cycle: August 27, 2021").
 */
module Descriptions {
  import opened Wrappers
  import opened Text

  // ---------------------------------------------------------------------------
  // Dates and times, with the ranges Python's datetime enforces
  // ---------------------------------------------------------------------------

  type Year = y: int | 1 <= y <= 9999 witness 1
  type Month = m: int | 1 <= m <= 12 witness 1
  type Day = d: int | 1 <= d <= 31 witness 1
  /** Monday is 0 and Sunday 6, as `date.weekday()` counts. */
  type Weekday = d: int | 0 <= d <= 6
  type Hour = h: int | 0 <= h <= 23
  type Minute = m: int | 0 <= m <= 59
  type Second = s: int | 0 <= s <= 59
  type Microsecond = u: int | 0 <= u <= 999999

  /** A calendar day; the day of the week is carried, not computed from the other fields. */
  datatype Date = Date(year: Year, month: Month, day: Day, weekday: Weekday)

  datatype Time = Time(hour: Hour, minute: Minute, second: Second, microsecond: Microsecond)

  /**
    The value stored under the record's "datetime" key: a `datetime.datetime`,
    or a plain `datetime.date`, which has no time of day.
   */
  datatype Moment = DateTime(date: Date, time: Time) | DateOnly(date: Date)

  /** The keys of the episode record the builder reads; a missing key is `None`. */
  datatype Episode = Episode(
    title: Option<string>,
    datetime: Option<Moment>,
    station: Option<string>,
    dj: Option<string>,
    venue: Option<string>)

  const WeekdayNames: seq<string> :=
    ["Monday", "Tuesday", "Wednesday", "Thursday", "Friday", "Saturday", "Sunday"]

  const MonthNames: seq<string> :=
    ["January", "February", "March", "April", "May", "June",
     "July", "August", "September", "October", "November", "December"]

  // ---------------------------------------------------------------------------
  // The day-of-week-and-time phrase
  // ---------------------------------------------------------------------------

  /** A time equal to `time(0, 0)`: every field zero, down to the microsecond. */
  predicate IsMidnight(t: Time)
    ensures IsMidnight(t) <==> t == Time(0, 0, 0, 0)
  {
    t.hour == 0 && t.minute == 0 && t.second == 0 && t.microsecond == 0
  }

  /** The hour on a 12-hour clock, as `%I` shows it. */
  function Hour12(hour: Hour): (h: nat)
    ensures 1 <= h <= 12
    ensures h % 12 == hour % 12
  {
    if hour % 12 == 0 then 12 else hour % 12
  }

  /** `dt.strftime('%I:%M%p').lower()` with one leading '0' removed. */
  function ClockText(t: Time): (r: string)
    ensures |r| == 6 || |r| == 7
    ensures r[0] != '0'
    ensures r[|r| - 2..] == Meridiem(t.hour)
  {
    HourPadded(Hour12(t.hour));
    HourDigits(Hour12(t.hour));
    var text := Fixed(Hour12(t.hour), 2) + ":" + Fixed(t.minute, 2) + Meridiem(t.hour);
    if text[0] == '0' then text[1..] else text
  }

  /** "am" for the hours 0 to 11, "pm" for 12 to 23, as `%p` followed by `lower()` gives them. */
  function Meridiem(hour: Hour): string {
    if hour < 12 then "am" else "pm"
  }

  /** The clock text is the unpadded 12-hour numeral, a colon, the two-digit minute and am/pm. */
  lemma ClockTextParts(t: Time)
    ensures ClockText(t) == Decimal(Hour12(t.hour)) + ":" + Fixed(t.minute, 2) + Meridiem(t.hour)
  {
    var h := Hour12(t.hour);
    var d, b, c := Decimal(h), Fixed(t.minute, 2), Meridiem(t.hour);
    HourPadded(h);
    HourDigits(h);
    var text := Fixed(h, 2) + ":" + b + c;
    if h < 10 {
      assert text == ['0'] + (d + ":" + b + c);
    } else {
      assert text == d + ":" + b + c;
    }
  }

  /** `%I` pads the hours 1 to 9 with one '0'. */
  lemma HourPadded(h: nat)
    requires 1 <= h <= 12
    ensures Fixed(h, 2) == if h < 10 then ['0'] + Decimal(h) else Decimal(h)
  {
    assert Fixed(h, 2) == Fixed(h / 10, 1) + [DigitChar(h % 10)];
    assert Fixed(h / 10, 1) == Fixed(h / 100, 0) + [DigitChar(h / 10)];
    if h >= 10 {
      assert Decimal(h) == Decimal(1) + [DigitChar(h % 10)];
    }
  }

  lemma ClockSlices(hour: string, minute: string, suffix: string)
    requires |minute| == 2 && |suffix| == 2
    ensures var r := hour + ":" + minute + suffix; var n := |hour|;
      |r| == n + 5 && r[..n] == hour && r[n] == ':' && r[n + 1..n + 3] == minute && r[n + 3..] == suffix
  {
  }

  /**
    The shape of clock text for `hour` and `minute`: the hour in one or two
    digits with no leading zero and a value from 1 to 12 (12 for hours 0 and
    12), a colon, the minute in two digits, then "am" for hours 0 to 11 and
    "pm" for hours 12 to 23.
   */
  predicate ClockShaped(r: string, hour: Hour, minute: Minute) {
    var n := |r| - 5;
    1 <= n <= 2 && r[0] != '0'
    && AllDigits(r[..n]) && ValueOf(r[..n]) == Hour12(hour)
    && 1 <= ValueOf(r[..n]) <= 12
    && (hour % 12 == 0 ==> ValueOf(r[..n]) == 12)
    && r[n] == ':'
    && AllDigits(r[n + 1..n + 3]) && ValueOf(r[n + 1..n + 3]) == minute
    && r[n + 3..] == (if hour < 12 then "am" else "pm")
  }

  lemma ClockTextShape(t: Time)
    ensures ClockShaped(ClockText(t), t.hour, t.minute)
  {
    ClockTextParts(t);
    ClockPartsShaped(t.hour, t.minute);
  }

  lemma ClockPartsShaped(hour: Hour, minute: Minute)
    ensures ClockShaped(Decimal(Hour12(hour)) + ":" + Fixed(minute, 2) + Meridiem(hour), hour, minute)
  {
    var h := Hour12(hour);
    var a, b, c := Decimal(h), Fixed(minute, 2), Meridiem(hour);
    ClockSlices(a, b, c);
    HourDigits(h);
    ValueOfFixed(minute, 2);
  }

  /** A 12-hour hour is written in one or two digits, without a leading zero. */
  lemma HourDigits(h: nat)
    requires 1 <= h <= 12
    ensures 1 <= |Decimal(h)| <= 2 && Decimal(h)[0] != '0' && ValueOf(Decimal(h)) == h
  {
    DecimalValue(h);
    if h >= 10 {
      assert Decimal(h) == Decimal(1) + [DigitChar(h % 10)];
    }
  }

  /** The clock text is one word. */
  lemma ClockTextIsWord(t: Time)
    ensures IsWord(ClockText(t))
  {
    ClockTextParts(t);
    ClockPartsWord(t.hour, t.minute);
  }

  lemma ClockPartsWord(hour: Hour, minute: Minute)
    ensures IsWord(Decimal(Hour12(hour)) + ":" + Fixed(minute, 2) + Meridiem(hour))
  {
    var a, b, c := Decimal(Hour12(hour)), Fixed(minute, 2), Meridiem(hour);
    assert NoSpace(a) && NoSpace(":") && NoSpace(b) && NoSpace(c);
    NoSpaceAppend(a, ":");
    NoSpaceAppend(a + ":", b);
    NoSpaceAppend(a + ":" + b, c);
  }

  /** Reads a 24-hour (hour, minute) back from clock text. */
  function ParseClock(r: string): Option<(int, int)> {
    if |r| < 6 then None
    else
      var n := |r| - 5;
      var hourText, minuteText, suffix := r[..n], r[n + 1..n + 3], r[n + 3..];
      if r[n] != ':' || !AllDigits(hourText) || !AllDigits(minuteText) || (suffix != "am" && suffix != "pm") then None
      else
        var h := ValueOf(hourText);
        if h < 1 || 12 < h then None
        else Some((h % 12 + (if suffix == "pm" then 12 else 0), ValueOf(minuteText)))
  }

  /** The 12-hour text loses nothing: hour and minute come back from it. */
  lemma ClockRoundTrip(t: Time)
    ensures ParseClock(ClockText(t)) == Some((t.hour as int, t.minute as int))
  {
    ClockTextShape(t);
    HourFrom12(t.hour);
  }

  /** The 24-hour hour is the 12-hour hour modulo 12, plus 12 in the afternoon. */
  lemma HourFrom12(hour: Hour)
    ensures Hour12(hour) % 12 + (if hour < 12 then 0 else 12) == hour
  {
  }

  /** `format_day_of_week_and_time(parser.get('datetime'))`. */
  function DayAndTime(m: Option<Moment>): (r: string)
    ensures r == "" <==> !(m.Some? && m.value.DateTime?)
    ensures m.Some? && m.value.DateTime? ==> WeekdayNames[m.value.date.weekday] <= r
  {
    if m.Some? && m.value.DateTime? then
      var day := WeekdayNames[m.value.date.weekday];
      if IsMidnight(m.value.time) then day else day + " at " + ClockText(m.value.time)
    else ""
  }

  /** `format_station(parser.get('station'))`. */
  function FormatStation(station: Option<string>): (r: string)
    ensures r == "" <==> station.None? || station.value == ""
    ensures r != "" ==> |r| == |station.value| + 3 && r[..3] == "on " && r[3..] == station.value
  {
    if station.None? || station.value == "" then "" else "on " + station.value
  }

  /** `format_dj(parser.get('dj'))`. */
  function FormatDj(dj: Option<string>): (r: string)
    ensures r == "" <==> dj.None? || dj.value == ""
    ensures r != "" ==> |r| == |dj.value| + 5 && r[..5] == "with " && r[5..] == dj.value
  {
    if dj.None? || dj.value == "" then "" else "with " + dj.value
  }

  // ---------------------------------------------------------------------------
  // The description
  // ---------------------------------------------------------------------------

  /** `playlist_description(parser)`. */
  function PlaylistDescription(e: Episode): (r: string)
    ensures e.venue.Some? ==> r == "At " + e.venue.value
  {
    if e.venue.Some? then "At " + e.venue.value
    else
      var description := Join(" ", NonEmpty(Phrases(e)));
      if description == "" then description
      else
        var words := Words(description);
        PhraseWordsFromPhrases(e);
        PhrasesEmptyIff(e);
        assert words != [];
        Join(" ", [Capitalize(words[0])] + words[1..])
  }

  /** The words of the time phrase: the weekday, then "at" and the clock unless the time is midnight. */
  function TimeWords(m: Option<Moment>): seq<string> {
    if m.Some? && m.value.DateTime? then
      [WeekdayNames[m.value.date.weekday]] + (if IsMidnight(m.value.time) then [] else ["at", ClockText(m.value.time)])
    else []
  }

  /** The words of a "lead name" phrase, or none when the name is missing or empty. */
  function NameWords(lead: string, name: Option<string>): seq<string> {
    if name.Some? && name.value != "" then [lead] + Words(name.value) else []
  }

  /**
    The description's words in their fixed order, before the first is
    capitalised: time phrase, then station phrase, then DJ phrase, each one
    skipped when its field is missing or empty, and each name split at its
    whitespace.
   */
  function DescriptionWords(e: Episode): seq<string> {
    TimeWords(e.datetime) + NameWords("on", e.station) + NameWords("with", e.dj)
  }

  /** True when the record has no phrase to contribute. */
  predicate NoPhrases(e: Episode) {
    !(e.datetime.Some? && e.datetime.value.DateTime?)
    && (e.station.None? || e.station.value == "")
    && (e.dj.None? || e.dj.value == "")
  }

  lemma WeekdayNameIsWord(d: Weekday)
    ensures IsWord(WeekdayNames[d])
  {
    var w := WeekdayNames[d];
    forall i | 0 <= i < |w| ensures !IsSpace(w[i]) {
      if d == 0 {} else if d == 1 {} else if d == 2 {} else if d == 3 {}
      else if d == 4 {} else if d == 5 {} else {}
    }
  }

  /** The time phrase splits into the time words; it is empty exactly when there is no datetime. */
  lemma TimePhraseWords(m: Option<Moment>)
    ensures Words(DayAndTime(m)) == TimeWords(m)
    ensures DayAndTime(m) == "" <==> !(m.Some? && m.value.DateTime?)
  {
    if m.Some? && m.value.DateTime? {
      var day := WeekdayNames[m.value.date.weekday];
      WeekdayNameIsWord(m.value.date.weekday);
      WordsOfWord(day);
      if !IsMidnight(m.value.time) {
        ClockTextIsWord(m.value.time);
        AtPhraseWords(day, ClockText(m.value.time));
      }
    }
  }

  /** "day at clock" splits into its three words. */
  lemma AtPhraseWords(day: string, clock: string)
    requires IsWord(day) && IsWord(clock)
    ensures Words(day + " at " + clock) == [day, "at", clock]
  {
    WordsOfWord(day);
    WordsOfWord(clock);
    WordsOfWord("at");
    assert day + " at " + clock == day + [' '] + ("at" + [' '] + clock);
    WordsAround(day, ' ', "at" + [' '] + clock);
    WordsAround("at", ' ', clock);
  }

  lemma WordsOfThree(a: string, b: string, c: string)
    ensures WordsOfEach([a, b, c]) == Words(a) + Words(b) + Words(c)
  {
    var ps := [a, b, c];
    assert ps[1..] == [b, c] && ps[1..][1..] == [c] && ps[1..][1..][1..] == [];
    assert WordsOfEach([c]) == Words(c) + [];
    assert WordsOfEach([b, c]) == Words(b) + Words(c);
  }

  /** The three phrases of a record without venue, in their fixed order. */
  function Phrases(e: Episode): seq<string> {
    [DayAndTime(e.datetime), FormatStation(e.station), FormatDj(e.dj)]
  }

  /** Splitting the joined phrases into words gives the reference words. */
  lemma PhraseWordsFromPhrases(e: Episode)
    ensures Words(Join(" ", NonEmpty(Phrases(e)))) == DescriptionWords(e)
  {
    var a, b, c := DayAndTime(e.datetime), FormatStation(e.station), FormatDj(e.dj);
    var ne := NonEmpty([a, b, c]);
    calc {
      Words(Join(" ", ne));
      { WordsOfJoin(ne); }
      WordsOfEach(ne);
      { WordsOfNonEmpty([a, b, c]); }
      WordsOfEach([a, b, c]);
      { WordsOfThree(a, b, c); }
      Words(a) + Words(b) + Words(c);
      { TimePhraseWords(e.datetime); StationPhraseWords(e.station); DjPhraseWords(e.dj); }
      TimeWords(e.datetime) + NameWords("on", e.station) + NameWords("with", e.dj);
    }
  }

  /** The joined phrases, and the reference words, are empty exactly when no phrase is present. */
  lemma PhrasesEmptyIff(e: Episode)
    ensures Join(" ", NonEmpty(Phrases(e))) == "" <==> NoPhrases(e)
    ensures DescriptionWords(e) == [] <==> NoPhrases(e)
  {
    var phrases := Phrases(e);
    TimePhraseWords(e.datetime);
    JoinNonEmpty(NonEmpty(phrases));
    var all := forall k :: 0 <= k < |phrases| ==> phrases[k] == "";
    assert all <==> phrases[0] == "" && phrases[1] == "" && phrases[2] == "";
  }

  lemma NamePhraseWords(lead: string, name: string)
    requires IsWord(lead) && name != ""
    ensures Words(lead + " " + name) == [lead] + Words(name)
  {
    WordsAround(lead, ' ', name);
    WordsOfWord(lead);
  }

  lemma StationPhraseWords(station: Option<string>)
    ensures Words(FormatStation(station)) == NameWords("on", station)
  {
    if station.Some? && station.value != "" {
      assert FormatStation(station) == "on" + " " + station.value;
      NamePhraseWords("on", station.value);
    }
  }

  lemma DjPhraseWords(dj: Option<string>)
    ensures Words(FormatDj(dj)) == NameWords("with", dj)
  {
    if dj.Some? && dj.value != "" {
      assert FormatDj(dj) == "with" + " " + dj.value;
      NamePhraseWords("with", dj.value);
    }
  }

  /** Joining non-empty parts is empty only when there are none. */
  lemma {:induction false} JoinNonEmpty(parts: seq<string>)
    requires forall k :: 0 <= k < |parts| ==> parts[k] != ""
    ensures Join(" ", parts) == "" <==> parts == []
  {
    if |parts| > 1 {
      assert |Join(" ", parts)| >= |parts[0]|;
    }
  }

  /**
    Without a venue, the description is the reference words with the first
    one capitalised, joined by single spaces; and "" when there are none.
   */
  lemma DescriptionFromWords(e: Episode)
    requires e.venue.None?
    ensures var ws := DescriptionWords(e);
      PlaylistDescription(e) == if ws == [] then "" else Join(" ", [Capitalize(ws[0])] + ws[1..])
  {
    PhraseWordsFromPhrases(e);
    PhrasesEmptyIff(e);
  }

  /** Without a venue, the description is empty exactly when no phrase is present. */
  lemma DescriptionEmptyIff(e: Episode)
    requires e.venue.None?
    ensures PlaylistDescription(e) == "" <==> NoPhrases(e)
  {
    var ws := DescriptionWords(e);
    DescriptionFromWords(e);
    PhrasesEmptyIff(e);
    if ws != [] {
      PhraseWordsFromPhrases(e);
      CapitalisedJoin(ws);
    }
  }

  /** Words with the first capitalised, joined by single spaces: non-empty, single-spaced, and splitting back. */
  lemma CapitalisedJoin(ws: seq<string>)
    requires ws != [] && forall k :: 0 <= k < |ws| ==> IsWord(ws[k])
    ensures var cs := [Capitalize(ws[0])] + ws[1..]; var r := Join(" ", cs);
      r != "" && SingleSpaced(r) && Words(r) == cs
  {
    var cs := [Capitalize(ws[0])] + ws[1..];
    forall k | 0 <= k < |cs| ensures IsWord(cs[k]) {
      if k > 0 {
        assert cs[k] == ws[k];
      }
    }
    JoinedWordsSingleSpaced(cs);
    WordsOfJoinedWords(cs);
  }

  /** The first word of a description without venue. */
  predicate IsLeadWord(w: string) {
    w in WeekdayNames || w == "On" || w == "With"
  }

  /**
    Without a venue, the description is single-spaced with nothing at either
    end; when non-empty, its words are the reference words with the first
    capitalised, and that first word is a weekday name, "On" or "With".
   */
  lemma DescriptionNormalised(e: Episode)
    requires e.venue.None?
    ensures SingleSpaced(PlaylistDescription(e))
    ensures var r := PlaylistDescription(e); var ws := DescriptionWords(e);
      r != "" ==> ws != [] && Words(r) == [Capitalize(ws[0])] + ws[1..] && IsLeadWord(Words(r)[0])
  {
    var ws := DescriptionWords(e);
    DescriptionFromWords(e);
    if ws != [] {
      PhraseWordsFromPhrases(e);
      CapitalisedJoin(ws);
      FirstWordCapitalised(e);
    }
  }

  lemma FirstWordCapitalised(e: Episode)
    requires DescriptionWords(e) != []
    ensures IsLeadWord(Capitalize(DescriptionWords(e)[0]))
  {
    var ws := DescriptionWords(e);
    if TimeWords(e.datetime) != [] {
      var d := e.datetime.value.date.weekday;
      assert ws[0] == WeekdayNames[d];
      WeekdayCapitalised(d);
    } else if NameWords("on", e.station) != [] {
      assert ws[0] == "on";
      ConnectivesCapitalised();
    } else {
      assert ws[0] == "with";
      ConnectivesCapitalised();
    }
  }

  lemma WeekdayCapitalised(d: Weekday)
    ensures Capitalize(WeekdayNames[d]) == WeekdayNames[d]
  {
    assert IsCapitalised(WeekdayNames[d]) by {
      if d == 0 {} else if d == 1 {} else if d == 2 {} else if d == 3 {}
      else if d == 4 {} else if d == 5 {} else {}
    }
    CapitalizeFixes(WeekdayNames[d]);
  }

  lemma ConnectivesCapitalised()
    ensures Capitalize("on") == "On" && Capitalize("with") == "With"
  {
  }

  // ---------------------------------------------------------------------------
  // The title
  // ---------------------------------------------------------------------------

  /**
    `strftime("%B %d, %Y")`: full month name, two-digit day, four-digit year.
    Nothing is lost (year, month and day come back from the text), and the
    text holds no ':', so a title's last ": " is the one before its date.
   */
  function DateText(d: Date): (r: string)
    ensures ParseDate(r) == Some((d.year as int, d.month as int, d.day as int))
    ensures ':' !in r
    ensures |r| >= 12
  {
    var name, day, year := MonthNames[d.month - 1], Fixed(d.day, 2), Fixed(d.year, 4);
    MonthNumberOfName(d.month);
    MonthNameShape(d.month);
    ValueOfFixed(d.day, 2);
    ValueOfFixed(d.year, 4);
    ParseDateOf(name, day, year);
    assert ':' !in day && ':' !in year && ':' !in " " && ':' !in ", ";
    name + " " + day + ", " + year
  }

  /**
    `playlist_title(parser)`. Both keys must be present: the source reads them
    with `parser[...]` and has no fallback.
   */
  function PlaylistTitle(e: Episode): (r: string)
    requires e.title.Some? && e.datetime.Some?
    ensures |r| >= |e.title.value| + 14 && r[..|e.title.value|] == e.title.value
  {
    e.title.value + ": " + DateText(e.datetime.value.date)
  }

  /** The month whose full name is `name`. */
  function MonthNumber(name: string): (m: Option<Month>)
    ensures m.Some? ==> MonthNames[m.value - 1] == name
  {
    MonthFrom(name, 0)
  }

  function MonthFrom(name: string, i: nat): (m: Option<Month>)
    requires i <= 12
    ensures m.Some? ==> i < m.value && MonthNames[m.value - 1] == name
    decreases 12 - i
  {
    if i == 12 then None
    else if MonthNames[i] == name then Some(i + 1)
    else MonthFrom(name, i + 1)
  }

  /** Each month name is found as its own month: no two months share a name. */
  lemma MonthNumberOfName(m: Month)
    ensures MonthNumber(MonthNames[m - 1]) == Some(m)
  {
    if m == 1 {} else if m == 2 {} else if m == 3 {} else if m == 4 {}
    else if m == 5 {} else if m == 6 {} else if m == 7 {} else if m == 8 {}
    else if m == 9 {} else if m == 10 {} else if m == 11 {} else {}
  }

  /** Reads (year, month, day) back from "Month DD, YYYY". */
  function ParseDate(s: string): Option<(int, int, int)> {
    if |s| < 9 then None
    else
      var n := |s| - 9;
      var month, dayText, yearText := MonthNumber(s[..n]), s[n + 1..n + 3], s[n + 5..];
      if month.None? || s[n] != ' ' || s[n + 3..n + 5] != ", " || !AllDigits(dayText) || !AllDigits(yearText) then None
      else Some((ValueOf(yearText), month.value as int, ValueOf(dayText)))
  }

  lemma DateSlices(name: string, day: string, year: string)
    requires |day| == 2 && |year| == 4
    ensures var s := name + " " + day + ", " + year; var n := |name|;
      |s| == n + 9 && s[..n] == name && s[n] == ' ' && s[n + 1..n + 3] == day
      && s[n + 3..n + 5] == ", " && s[n + 5..] == year
  {
  }

  /** "Month DD, YYYY" with a known month name and digit fields is read back field by field. */
  lemma ParseDateOf(name: string, day: string, year: string)
    requires MonthNumber(name).Some?
    requires |day| == 2 && |year| == 4 && AllDigits(day) && AllDigits(year)
    ensures ParseDate(name + " " + day + ", " + year)
      == Some((ValueOf(year), MonthNumber(name).value as int, ValueOf(day)))
  {
    DateSlices(name, day, year);
  }

  /** Month names have at least three letters and no ':'. */
  lemma MonthNameShape(m: Month)
    ensures |MonthNames[m - 1]| >= 3 && ':' !in MonthNames[m - 1]
  {
    if m <= 6 {
      if m == 1 {} else if m == 2 {} else if m == 3 {} else if m == 4 {} else if m == 5 {} else {}
    } else {
      if m == 7 {} else if m == 8 {} else if m == 9 {} else if m == 10 {} else if m == 11 {} else {}
    }
  }

  /** Where the last ": " in `s` starts. */
  function LastSeparator(s: string): (k: Option<nat>)
    ensures k.Some? ==> k.value + 2 <= |s| && s[k.value..k.value + 2] == ": "
  {
    if |s| < 2 then None
    else if s[|s| - 2..] == ": " then Some(|s| - 2)
    else LastSeparator(s[..|s| - 1])
  }

  /** The last ": " is the one in front of a colon-free tail. */
  lemma {:induction false} LastSeparatorBefore(p: string, tail: string)
    requires ':' !in tail
    ensures LastSeparator(p + ": " + tail) == Some(|p|)
    decreases |tail|
  {
    var s := p + ": " + tail;
    if tail == [] {
      assert s[|s| - 2..] == ": ";
    } else {
      assert s[|s| - 2] != ':' by {
        if |tail| == 1 {
          assert s[|s| - 2] == ' ';
        } else {
          assert s[|s| - 2] == tail[|tail| - 2];
        }
      }
      assert s[..|s| - 1] == p + ": " + tail[..|tail| - 1];
      LastSeparatorBefore(p, tail[..|tail| - 1]);
    }
  }

  /** Reads (title, (year, month, day)) back from a playlist title. */
  function ParseTitle(s: string): Option<(string, (int, int, int))> {
    match LastSeparator(s)
    case None => None
    case Some(k) =>
      match ParseDate(s[k + 2..])
      case None => None
      case Some(ymd) => Some((s[..k], ymd))
  }

  /**
    The playlist title is `title + ": " + date text`, and the title and the
    date can both be read back from it, even when the title itself holds ": ".
   */
  lemma TitleRoundTrip(e: Episode)
    requires e.title.Some? && e.datetime.Some?
    ensures var d := e.datetime.value.date;
      ParseTitle(PlaylistTitle(e)) == Some((e.title.value, (d.year as int, d.month as int, d.day as int)))
  {
    var t, d := e.title.value, e.datetime.value.date;
    var s := PlaylistTitle(e);
    LastSeparatorBefore(t, DateText(d));
    assert s[|t| + 2..] == DateText(d) && s[..|t|] == t;
  }

  /** Two records with the same playlist title have the same title and the same date. */
  lemma TitleInjective(e1: Episode, e2: Episode)
    requires e1.title.Some? && e1.datetime.Some? && e2.title.Some? && e2.datetime.Some?
    requires PlaylistTitle(e1) == PlaylistTitle(e2)
    ensures e1.title == e2.title
    ensures var d1, d2 := e1.datetime.value.date, e2.datetime.value.date;
      d1.year == d2.year && d1.month == d2.month && d1.day == d2.day
  {
    TitleRoundTrip(e1);
    TitleRoundTrip(e2);
  }
}
