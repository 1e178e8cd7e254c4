/** The booking text of `lib/commands.js`: the argument pattern of `/book`
    (`^(\d{1,2}[-/]\d{1,2})\s+(\d{1,2}:\d{2})-(\d{1,2}:\d{2})$`), the entry it stores,
    and `parseBooking`, which reads a stored entry back for `/list`. */
module Booking {
  import opened Wrappers
  import opened Text
  import Calendar

  /** A clock time as typed: `\d{1,2}:\d{2}`. */
  datatype Clock = Clock(hour: string, minute: string)

  predicate ClockWellFormed(c: Clock) {
    1 <= |c.hour| <= 2 && AllDigits(c.hour) && |c.minute| == 2 && AllDigits(c.minute)
  }

  function ClockText(c: Clock): string {
    c.hour + (":" + c.minute)
  }

  /** The pieces of a text the `/book` pattern matches: the day and month digits with
      the separator between them, the white space after the date, and both clock times. */
  datatype Args = Args(day: string, sep: char, month: string, gap: string, start: Clock, end: Clock)

  predicate WellFormed(a: Args) {
    && 1 <= |a.day| <= 2 && AllDigits(a.day)
    && (a.sep == '-' || a.sep == '/')
    && 1 <= |a.month| <= 2 && AllDigits(a.month)
    && |a.gap| >= 1 && AllSpace(a.gap)
    && ClockWellFormed(a.start) && ClockWellFormed(a.end)
  }

  /** The text made of the pieces: the language of the pattern is the set of
      `Spell(a)` for well-formed `a`. */
  function Spell(a: Args): string {
    a.day + ([a.sep] + (a.month + (a.gap + (ClockText(a.start) + ("-" + ClockText(a.end))))))
  }

  /** The same booking written with `/` between day and month and one space after the
      date. */
  function Normalised(a: Args): Args {
    a.(sep := '/', gap := " ")
  }

  // ---------------------------------------------------------------- matching

  /** `\d{1,2}:\d{2}` at the start of `s`, and what follows it. */
  function MatchClock(s: string): (r: Option<(Clock, string)>)
    ensures r.Some? ==> ClockWellFormed(r.value.0) && ClockText(r.value.0) + r.value.1 == s
  {
    var h := SpanDigits(s);
    if h < 1 || h > 2 || |s| < h + 3 || s[h] != ':' || !IsDigit(s[h + 1]) || !IsDigit(s[h + 2]) then
      None
    else
      var c := Clock(s[..h], s[h + 1..h + 3]);
      assert s == s[..h] + ([':'] + s[h + 1..h + 3]) + s[h + 3..];
      Some((c, s[h + 3..]))
  }

  lemma MatchClockOf(c: Clock, rest: string)
    requires ClockWellFormed(c)
    ensures MatchClock(ClockText(c) + rest) == Some((c, rest))
  {
    var s := ClockText(c) + rest;
    assert s == c.hour + ([':'] + c.minute + rest);
    assert SpanDigits(s) == |c.hour| by {
      SpanDigitsOf(c.hour, [':'] + c.minute + rest);
    }
    var h := |c.hour|;
    assert s[..h] == c.hour;
    assert s[h + 1..h + 3] == c.minute;
    assert s[h + 3..] == rest;
  }

  /** `\d{1,2}[-/]\d{1,2}` at the start of `s`, where white space must follow: the day,
      the separator, the month and the rest of the text. */
  function MatchDate(s: string): (r: Option<(string, char, string, string)>)
    ensures r.Some? ==>
      && 1 <= |r.value.0| <= 2 && AllDigits(r.value.0)
      && (r.value.1 == '-' || r.value.1 == '/')
      && 1 <= |r.value.2| <= 2 && AllDigits(r.value.2)
      && r.value.3 != [] && IsSpace(r.value.3[0])
      && r.value.0 + ([r.value.1] + (r.value.2 + r.value.3)) == s
  {
    var d := SpanDigits(s);
    if d < 1 || d > 2 || d == |s| || !(s[d] == '-' || s[d] == '/') then None
    else
      match MatchMonth(s[d + 1..])
      case None => None
      case Some((month, rest)) =>
        assert s == s[..d] + ([s[d]] + s[d + 1..]);
        Some((s[..d], s[d], month, rest))
  }

  /** The month of a date: `\d{1,2}` at the start of `s`, where white space must follow. */
  function MatchMonth(s: string): (r: Option<(string, string)>)
    ensures r.Some? ==>
      && 1 <= |r.value.0| <= 2 && AllDigits(r.value.0)
      && r.value.1 != [] && IsSpace(r.value.1[0])
      && r.value.0 + r.value.1 == s
  {
    var m := SpanDigits(s);
    if m < 1 || m > 2 || m == |s| || !IsSpace(s[m]) then None
    else
      Halves(s, m);
      Some((s[..m], s[m..]))
  }

  lemma MatchDateOf(day: string, sep: char, month: string, rest: string)
    requires 1 <= |day| <= 2 && AllDigits(day) && (sep == '-' || sep == '/')
    requires 1 <= |month| <= 2 && AllDigits(month)
    requires rest != [] && IsSpace(rest[0])
    ensures MatchDate(day + ([sep] + (month + rest))) == Some((day, sep, month, rest))
  {
    var s := day + ([sep] + (month + rest));
    DigitsThenSeparator(day, sep, month + rest);
    assert MatchMonth(s[|day| + 1..]) == Some((month, rest)) by {
      MatchMonthOf(month, rest);
    }
  }

  /** Digits, a non-digit, and a rest: the digit run ends right before the non-digit. */
  lemma DigitsThenSeparator(d: string, c: char, rest: string)
    requires AllDigits(d) && !IsDigit(c)
    ensures var s := d + ([c] + rest);
      SpanDigits(s) == |d| && s[..|d|] == d && s[|d|] == c && s[|d| + 1..] == rest
  {
    var s := d + ([c] + rest);
    SpanDigitsOf(d, [c] + rest);
    assert s[..|d|] == d;
    assert s[|d| + 1..] == rest;
  }

  lemma MatchMonthOf(month: string, rest: string)
    requires 1 <= |month| <= 2 && AllDigits(month)
    requires rest != [] && IsSpace(rest[0])
    ensures MatchMonth(month + rest) == Some((month, rest))
  {
    var s := month + rest;
    assert SpanDigits(s) == |month| by {
      SpanDigitsOf(month, rest);
    }
    assert s[..|month|] == month && s[|month|..] == rest;
  }

  /** `(\d{1,2}:\d{2})-(\d{1,2}:\d{2})$`: the whole of `t` is two clock times. */
  function MatchTimes(t: string): (r: Option<(Clock, Clock)>)
    ensures r.Some? ==> ClockWellFormed(r.value.0) && ClockWellFormed(r.value.1)
    ensures r.Some? ==> ClockText(r.value.0) + ("-" + ClockText(r.value.1)) == t
  {
    match MatchClock(t)
    case None => None
    case Some((start, s3)) =>
      if s3 == [] || s3[0] != '-' then None
      else
        match MatchClock(s3[1..])
        case None => None
        case Some((end, s4)) =>
          if s4 != [] then None
          else
            assert s3 == "-" + ClockText(end);
            Some((start, end))
  }

  lemma MatchTimesOf(start: Clock, end: Clock)
    requires ClockWellFormed(start) && ClockWellFormed(end)
    ensures MatchTimes(ClockText(start) + ("-" + ClockText(end))) == Some((start, end))
  {
    MatchClockOf(start, "-" + ClockText(end));
    assert ("-" + ClockText(end))[1..] == ClockText(end);
    MatchClockOf(end, []);
    assert ClockText(end) + [] == ClockText(end);
  }

  /** The pattern match on the trimmed arguments: each `\d{1,2}` must be a whole run of
      digits, since a non-digit follows it in the pattern; `\s+` takes the whole run
      of white space, since a digit follows it. A match decomposes the text. */
  function MatchArgs(s: string): (r: Option<Args>)
    ensures r.Some? ==> WellFormed(r.value) && Spell(r.value) == s
  {
    match MatchDate(s)
    case None => None
    case Some((day, sep, month, s2)) =>
      var t := TrimStart(s2);
      var gap := s2[..|s2| - |t|];
      match MatchTimes(t)
      case None => None
      case Some((start, end)) =>
        Halves(s2, |s2| - |t|);
        var a := Args(day, sep, month, gap, start, end);
        assert Spell(a) == day + ([sep] + (month + s2));
        Some(a)
  }

  /** Every text of the pattern's language matches, with its own pieces. */
  lemma MatchArgsSpell(a: Args)
    requires WellFormed(a)
    ensures MatchArgs(Spell(a)) == Some(a)
  {
    var clocks := ClockText(a.start) + ("-" + ClockText(a.end));
    var afterMonth := a.gap + clocks;
    assert Spell(a) == a.day + ([a.sep] + (a.month + afterMonth));
    assert MatchDate(Spell(a)) == Some((a.day, a.sep, a.month, afterMonth)) by {
      MatchDateOf(a.day, a.sep, a.month, afterMonth);
    }
    AfterDateOf(a.gap, a.start, a.end);
  }

  /** What follows the date in a spelled text: its white space, then the clock times. */
  lemma AfterDateOf(gap: string, start: Clock, end: Clock)
    requires |gap| >= 1 && AllSpace(gap) && ClockWellFormed(start) && ClockWellFormed(end)
    ensures var clocks := ClockText(start) + ("-" + ClockText(end));
      && TrimStart(gap + clocks) == clocks
      && (gap + clocks)[..|gap + clocks| - |clocks|] == gap
      && MatchTimes(clocks) == Some((start, end))
  {
    var clocks := ClockText(start) + ("-" + ClockText(end));
    assert TrimStart(gap + clocks) == clocks by {
      TrimStartOf(gap, clocks);
    }
    assert (gap + clocks)[..|gap|] == gap;
    MatchTimesOf(start, end);
  }

  // ---------------------------------------------------------------- the stored entry

  lemma DigitsAvoid(d: string, seps: set<char>)
    requires AllDigits(d)
    requires forall c :: c in seps ==> !IsDigit(c)
    ensures Avoids(d, seps)
  {
  }

  lemma ClockAvoids(c: Clock, seps: set<char>)
    requires ClockWellFormed(c)
    requires ':' !in seps && forall x :: x in seps ==> !IsDigit(x)
    ensures Avoids(ClockText(c), seps)
  {
    DigitsAvoid(c.hour, seps);
    DigitsAvoid(c.minute, seps);
  }

  /** `dateStr.split(/[-/]/)` of a matched date is its day and month. */
  lemma DateSplit(a: Args)
    requires WellFormed(a)
    ensures Split(a.day + [a.sep] + a.month, {'-', '/'}) == [a.day, a.month]
  {
    SplitDigitPair(a.day, a.sep, a.month, {'-', '/'});
  }

  /** Two digit strings around one separator split into the two. */
  lemma SplitDigitPair(d: string, c: char, e: string, seps: set<char>)
    requires AllDigits(d) && AllDigits(e) && c in seps
    requires forall x :: x in seps ==> !IsDigit(x)
    ensures Split(d + [c] + e, seps) == [d, e]
  {
    assert Split(e, seps) == [e] by {
      DigitsAvoid(e, seps);
      SplitNone(e, seps);
    }
    DigitsAvoid(d, seps);
    SplitCons(d, c, e, seps);
  }

  /** The entry `/book` stores: the day and month of the date capture joined by `/`,
      a space, and the two clock captures joined by `-`; `None` when the trimmed
      arguments do not match. */
  function BookEntry(args: string): Option<string>
  {
    match MatchArgs(Trim(args))
    case None => None
    case Some(a) =>
      DateSplit(a);
      var dm := Split(a.day + [a.sep] + a.month, {'-', '/'});
      Some(dm[0] + ("/" + (dm[1] + (" " + (ClockText(a.start) + ("-" + ClockText(a.end)))))))
  }

  /** An entry exists exactly when the trimmed arguments match, and it is the
      normalised spelling of the match. */
  lemma BookEntryMatches(args: string)
    ensures BookEntry(args).Some? <==> MatchArgs(Trim(args)).Some?
    ensures BookEntry(args).Some? ==> BookEntry(args).value == Spell(Normalised(MatchArgs(Trim(args)).value))
  {
    match MatchArgs(Trim(args))
    case None =>
    case Some(a) =>
      DateSplit(a);
  }

  /** Whatever white space surrounds a text of the pattern's language, `/book` stores
      its normalised spelling. */
  lemma BookEntryOf(w1: string, a: Args, w2: string)
    requires AllSpace(w1) && AllSpace(w2) && WellFormed(a)
    ensures BookEntry(w1 + Spell(a) + w2) == Some(Spell(Normalised(a)))
  {
    var s := Spell(a);
    assert s[0] == a.day[0];
    assert s[|s| - 1] == a.end.minute[1];
    TrimOf(w1, s, w2);
    MatchArgsSpell(a);
    BookEntryMatches(w1 + s + w2);
  }

  /** The normalised spelling is itself in the pattern's language: an entry re-matches. */
  lemma NormalisedWellFormed(a: Args)
    requires WellFormed(a)
    ensures WellFormed(Normalised(a))
    ensures BookEntry(Spell(Normalised(a))) == Some(Spell(Normalised(a)))
  {
    var n := Normalised(a);
    assert n.gap == " " && AllSpace(n.gap);
    assert WellFormed(n);
    var s := Spell(n);
    assert [] + s + [] == s;
    BookEntryOf([], n, []);
  }

  // ---------------------------------------------------------------- parseBooking

  /** What `parseBooking` returns, with the start instant in minutes of local time. */
  datatype Parsed = Parsed(original: string, start: int, dayName: string, dateDisplay: string, timeRange: string)

  /** The numbers `parseBooking` reads from an entry, and the text after its first space. */
  datatype Fields = Fields(day: nat, month: nat, hour: nat, minute: nat, timeRange: string)

  /** `split(' ')`, then the first two pieces of the date split on `-` or `/`, and of
      the first clock split on `:`, read by `Number`; `None` when a piece is missing or
      is not a digit string (see `Number`). Later pieces are ignored, as destructuring
      ignores them. */
  function ParseFields(s: string): (r: Option<Fields>)
    ensures r.Some? ==> |Split(s, {' '})| >= 2 && r.value.timeRange == Split(s, {' '})[1]
  {
    var parts := Split(s, {' '});
    if |parts| < 2 then None
    else
      var dm := Split(parts[0], {'-', '/'});
      var hm := Split(Split(parts[1], {'-'})[0], {':'});
      if |dm| < 2 || |hm| < 2 then None
      else
        match (Number(dm[0]), Number(dm[1]), Number(hm[0]), Number(hm[1]))
        case (Some(day), Some(month), Some(hour), Some(minute)) => Some(Fields(day, month, hour, minute, parts[1]))
        case _ => None
  }

  /** `parseBooking(entry)` in the given year: the instant of `new Date(year, month - 1,
      day, hour, minute)`, the name of its week day, `day/month` as numbers display,
      and the time range as stored. */
  function ParseBooking(s: string, year: int): (r: Option<Parsed>)
    ensures r.Some? <==> ParseFields(s).Some?
    ensures r.Some? ==> r.value.original == s && r.value.dayName in Calendar.DayNames
  {
    match ParseFields(s)
    case None => None
    case Some(f) =>
      var start := Calendar.LocalMinutes(year, f.month, f.day, f.hour, f.minute);
      Some(Parsed(s, start, Calendar.DayNames[Calendar.WeekDay(start)],
                  NatToString(f.day) + "/" + NatToString(f.month), f.timeRange))
  }

  /** `entry.split(' ')` of a normalised entry: the date and the time range. */
  lemma EntrySplit(a: Args)
    requires WellFormed(a)
    ensures Split(Spell(Normalised(a)), {' '})
         == [a.day + "/" + a.month, ClockText(a.start) + "-" + ClockText(a.end)]
  {
    var date := a.day + "/" + a.month;
    var range := ClockText(a.start) + "-" + ClockText(a.end);
    assert Spell(Normalised(a)) == date + [' '] + range;
    DigitsAvoid(a.day, {' '});
    DigitsAvoid(a.month, {' '});
    assert Avoids(date, {' '});
    ClockAvoids(a.start, {' '});
    ClockAvoids(a.end, {' '});
    assert Avoids(range, {' '});
    SplitCons(date, ' ', range, {' '});
    SplitNone(range, {' '});
  }

  /** The first clock of a time range, split on `:`, is its hour and minute. */
  lemma RangeSplit(start: Clock, end: Clock)
    requires ClockWellFormed(start) && ClockWellFormed(end)
    ensures Split(Split(ClockText(start) + "-" + ClockText(end), {'-'})[0], {':'}) == [start.hour, start.minute]
  {
    RangeFirst(start, end);
    ClockSplit(start);
  }

  lemma RangeFirst(start: Clock, end: Clock)
    requires ClockWellFormed(start) && ClockWellFormed(end)
    ensures Split(ClockText(start) + "-" + ClockText(end), {'-'})[0] == ClockText(start)
  {
    ClockAvoids(start, {'-'});
    SplitCons(ClockText(start), '-', ClockText(end), {'-'});
  }

  /** A clock time split on `:` is its hour and minute. */
  lemma ClockSplit(c: Clock)
    requires ClockWellFormed(c)
    ensures Split(ClockText(c), {':'}) == [c.hour, c.minute]
  {
    SplitDigitPair(c.hour, ':', c.minute, {':'});
    assert ClockText(c) == c.hour + [':'] + c.minute;
  }

  /** Every entry `/book` stores reads back: the numbers are the values of the digits as
      typed, the date displays without leading zeros and the time range is the two clock
      times as typed. */
  lemma ParseEntry(a: Args, year: int)
    requires WellFormed(a)
    ensures ParseFields(Spell(Normalised(a))) == Some(Fields(
      DigitsValue(a.day), DigitsValue(a.month), DigitsValue(a.start.hour), DigitsValue(a.start.minute),
      ClockText(a.start) + "-" + ClockText(a.end)))
    ensures var start := Calendar.LocalMinutes(year, DigitsValue(a.month), DigitsValue(a.day),
                                               DigitsValue(a.start.hour), DigitsValue(a.start.minute));
      ParseBooking(Spell(Normalised(a)), year) == Some(Parsed(
        Spell(Normalised(a)), start, Calendar.DayNames[Calendar.WeekDay(start)],
        NatToString(DigitsValue(a.day)) + "/" + NatToString(DigitsValue(a.month)),
        ClockText(a.start) + "-" + ClockText(a.end)))
  {
    EntrySplit(a);
    DateSplit(Normalised(a));
    RangeSplit(a.start, a.end);
  }

  /** A leading zero is dropped from a one-digit number. */
  lemma LeadingZeroValue(c: char)
    requires IsDigit(c)
    ensures NatToString(DigitsValue(['0', c])) == [c]
  {
    assert ['0', c][..1] == ['0'];
    assert ['0'][..0] == [];
    assert DigitsValue(['0']) == 0;
    assert DigitsValue(['0', c]) == DigitValue(c);
    assert DigitChar(DigitValue(c)) == c;
  }

  /** A one-digit day or month typed with a leading zero is displayed without it, and
      the time range is kept as typed. */
  lemma LeadingZerosDropped(a: Args, d: char, m: char, year: int)
    requires WellFormed(a) && a.day == ['0', d] && a.month == ['0', m]
    ensures ParseBooking(Spell(Normalised(a)), year).Some?
    ensures ParseBooking(Spell(Normalised(a)), year).value.dateDisplay == [d] + "/" + [m]
    ensures ParseBooking(Spell(Normalised(a)), year).value.timeRange == ClockText(a.start) + "-" + ClockText(a.end)
  {
    ParseEntry(a, year);
    LeadingZeroValue(d);
    LeadingZeroValue(m);
  }

  /** `05/03 10:00-11:00` displays its date as `5/3`. */
  lemma ExampleEntry(a: Args, year: int)
    requires a == Args("05", '/', "03", " ", Clock("10", "00"), Clock("11", "00"))
    ensures ParseBooking(Spell(Normalised(a)), year).Some?
    ensures ParseBooking(Spell(Normalised(a)), year).value.dateDisplay == "5/3"
  {
    assert WellFormed(a);
    LeadingZerosDropped(a, '5', '3', year);
  }

  // ---------------------------------------------------------------- calendar days

  /** An entry whose date and start time need no carrying by `Date`. */
  predicate InRangeEntry(s: string, year: int) {
    && ParseFields(s).Some?
    && var f := ParseFields(s).value;
       Calendar.InRange(year, f.month, f.day, f.hour, f.minute)
  }

  /** The day number of the start instant. */
  function Day(p: Parsed): int {
    p.start / Calendar.MinutesPerDay
  }

  /** Two in-range entries start on the same day exactly when their day and month
      numbers agree. */
  lemma SameDayFields(s1: string, s2: string, year: int)
    requires InRangeEntry(s1, year) && InRangeEntry(s2, year)
    ensures Day(ParseBooking(s1, year).value) == Day(ParseBooking(s2, year).value)
        <==> ParseFields(s1).value.day == ParseFields(s2).value.day
             && ParseFields(s1).value.month == ParseFields(s2).value.month
  {
    var f1, f2 := ParseFields(s1).value, ParseFields(s2).value;
    Calendar.SameDayInRange(year, f1.month, f1.day, f1.hour, f1.minute, f2.month, f2.day, f2.hour, f2.minute);
  }

  /** `D/M` split on `/` gives back the two numbers' displays. */
  lemma DisplaySplit(d: nat, m: nat)
    ensures Split(NatToString(d) + "/" + NatToString(m), {'/'}) == [NatToString(d), NatToString(m)]
  {
    SplitDigitPair(NatToString(d), '/', NatToString(m), {'/'});
  }

  /** `D/M` as numbers display it determines D and M. */
  lemma DisplayInjective(d1: nat, m1: nat, d2: nat, m2: nat)
    requires NatToString(d1) + "/" + NatToString(m1) == NatToString(d2) + "/" + NatToString(m2)
    ensures d1 == d2 && m1 == m2
  {
    DisplaySplit(d1, m1);
    DisplaySplit(d2, m2);
    assert NatToString(d1) == NatToString(d2);
    assert NatToString(m1) == NatToString(m2);
  }

  /** No day name holds a space. */
  lemma DayNamesHaveNoSpace(name: string)
    requires name in Calendar.DayNames
    ensures Avoids(name, {' '})
  {
  }

  /** A day name, a space and a text without spaces split back into the two. */
  lemma HeaderSplit(name: string, display: string)
    requires name in Calendar.DayNames && Avoids(display, {' '})
    ensures Split(name + " " + display, {' '}) == [name, display]
  {
    DayNamesHaveNoSpace(name);
    SplitCons(name, ' ', display, {' '});
    SplitNone(display, {' '});
  }

  /** The date display of a parsed entry holds no space. */
  lemma DateDisplayHasNoSpace(s: string, year: int)
    requires ParseFields(s).Some?
    ensures Avoids(ParseBooking(s, year).value.dateDisplay, {' '})
  {
    var f := ParseFields(s).value;
    DigitsAvoid(NatToString(f.day), {' '});
    DigitsAvoid(NatToString(f.month), {' '});
  }

  lemma HeaderDeterminesDay(s1: string, s2: string, year: int)
    requires InRangeEntry(s1, year) && InRangeEntry(s2, year)
    requires var p1, p2 := ParseBooking(s1, year).value, ParseBooking(s2, year).value;
      p1.dayName + " " + p1.dateDisplay == p2.dayName + " " + p2.dateDisplay
    ensures Day(ParseBooking(s1, year).value) == Day(ParseBooking(s2, year).value)
  {
    var f1, f2 := ParseFields(s1).value, ParseFields(s2).value;
    var p1, p2 := ParseBooking(s1, year).value, ParseBooking(s2, year).value;
    DateDisplayHasNoSpace(s1, year);
    DateDisplayHasNoSpace(s2, year);
    HeaderSplit(p1.dayName, p1.dateDisplay);
    HeaderSplit(p2.dayName, p2.dateDisplay);
    assert p1.dateDisplay == p2.dateDisplay;
    DisplayInjective(f1.day, f1.month, f2.day, f2.month);
    SameDayFields(s1, s2, year);
  }

  lemma DayDeterminesHeader(s1: string, s2: string, year: int)
    requires InRangeEntry(s1, year) && InRangeEntry(s2, year)
    requires Day(ParseBooking(s1, year).value) == Day(ParseBooking(s2, year).value)
    ensures var p1, p2 := ParseBooking(s1, year).value, ParseBooking(s2, year).value;
      p1.dayName == p2.dayName && p1.dateDisplay == p2.dateDisplay
  {
    var p1, p2 := ParseBooking(s1, year).value, ParseBooking(s2, year).value;
    ParsedOf(s1, year);
    ParsedOf(s2, year);
    var f1, f2 := ParseFields(s1).value, ParseFields(s2).value;
    assert f1.day == f2.day && f1.month == f2.month by {
      SameDayFields(s1, s2, year);
    }
    Calendar.SameDaySameWeekDay(p1.start, p2.start);
  }

  /** The fields of a parsed entry in terms of the fields read from its text. */
  lemma ParsedOf(s: string, year: int)
    requires ParseFields(s).Some?
    ensures var f, p := ParseFields(s).value, ParseBooking(s, year).value;
      && p.start == Calendar.LocalMinutes(year, f.month, f.day, f.hour, f.minute)
      && p.dayName == Calendar.DayNames[Calendar.WeekDay(p.start)]
      && p.dateDisplay == NatToString(f.day) + "/" + NatToString(f.month)
  {
  }

  /** The text `dayName + " " + dateDisplay` of two in-range entries of one year is the
      same exactly when they start on the same day. */
  lemma SameHeaderSameDay(s1: string, s2: string, year: int)
    requires InRangeEntry(s1, year) && InRangeEntry(s2, year)
    ensures var p1, p2 := ParseBooking(s1, year).value, ParseBooking(s2, year).value;
      p1.dayName + " " + p1.dateDisplay == p2.dayName + " " + p2.dateDisplay <==> Day(p1) == Day(p2)
  {
    var p1, p2 := ParseBooking(s1, year).value, ParseBooking(s2, year).value;
    if p1.dayName + " " + p1.dateDisplay == p2.dayName + " " + p2.dateDisplay {
      HeaderDeterminesDay(s1, s2, year);
    }
    if Day(p1) == Day(p2) {
      DayDeterminesHeader(s1, s2, year);
    }
  }
}
