/** `parseDate` (script.js:128-167) and the part of the JavaScript `Date` it relies on:
    the five-argument constructor, `new Date(0)` and the NaN test of script.js:105.
    Local time is taken to be UTC (no time-zone offset). */
module Dates {
  import opened Options
  import opened Text
  import opened Numbers

  /** A `Date` as the scraper can make one: from the constructor's arguments
      (year, monthIndex, day, hours, minutes) after `parseInt`, the `new Date(0)` sentinel,
      or an invalid date, whose time value is NaN because an argument was NaN. */
  datatype DateValue =
    | InvalidDate
    | Fields(year: int, month0: int, day: int, hours: int, minutes: int)
    | EpochZero

  // Time values, as in section 21.4.1 of ECMA-262 (the ECMAScript standard), in minutes.

  /** Day number of the first day of year `y`. */
  function DayFromYear(y: int): int
  {
    365 * (y - 1970) + (y - 1969) / 4 - (y - 1901) / 100 + (y - 1601) / 400
  }

  predicate InLeapYear(y: int)
  {
    y % 4 == 0 && (y % 100 != 0 || y % 400 == 0)
  }

  /** Days of the year before the first of month `m` (0 = January). */
  function DaysBeforeMonth(m: int, leap: bool): (n: int)
    requires 0 <= m < 12
    ensures 0 <= n <= 335
  {
    [0, 31, 59, 90, 120, 151, 181, 212, 243, 273, 304, 334][m] + (if leap && m >= 2 then 1 else 0)
  }

  /** MakeDay: a month outside 0..11 carries into the year, a day outside the month into the month. */
  function MakeDay(year: int, month: int, date: int): int
  {
    var ym := year + month / 12;
    DayFromYear(ym) + DaysBeforeMonth(month % 12, InLeapYear(ym)) + date - 1
  }

  /** The time value, in minutes, of `new Date(year, month0, day, hours, minutes)`;
      a year in 0..99 means 1900 + year. */
  function ConstructedMinutes(year: int, month0: int, day: int, hours: int, minutes: int): int
  {
    var fullYear := if 0 <= year <= 99 then 1900 + year else year;
    MakeDay(fullYear, month0, day) * 1440 + hours * 60 + minutes
  }

  /** TimeClip's bound of 8.64e15 milliseconds, in minutes. */
  const MaxMinutes: int := 144_000_000_000

  /** `!isNaN(date)`. */
  predicate IsValid(d: DateValue)
  {
    match d
    case InvalidDate => false
    case EpochZero => true
    case Fields(y, m, dd, h, mi) => -MaxMinutes <= ConstructedMinutes(y, m, dd, h, mi) <= MaxMinutes
  }

  /** The time value in minutes (the order `b.datetime - a.datetime` sorts by);
      an invalid date never reaches a reading, and gets 0 here. */
  function Minutes(d: DateValue): int
  {
    match d
    case Fields(y, m, dd, h, mi) => ConstructedMinutes(y, m, dd, h, mi)
    case _ => 0
  }

  lemma EpochIsMidnightNewYear1970()
    ensures Minutes(EpochZero) == Minutes(Fields(1970, 0, 1, 0, 0)) == 0
  {
  }

  /** New Year 2024 midnight is 28401120 minutes (19723 days) after the epoch. */
  lemma NewYear2024()
    ensures Minutes(Fields(2024, 0, 1, 0, 0)) == 19723 * 1440
  {
  }

  function DaysInMonth(m: int, leap: bool): (n: int)
    requires 0 <= m < 12
    ensures 28 <= n <= 31
  {
    [31, if leap then 29 else 28, 31, 30, 31, 30, 31, 31, 30, 31, 30, 31][m]
  }

  /** Arguments that name an actual minute of the calendar: a year of three digits or more
      (so no 19xx shorthand), a month index 0..11, a day of that month, 0..23 and 0..59. */
  predicate InCalendar(d: DateValue)
  {
    d.Fields? && d.year >= 100 && 0 <= d.month0 < 12 &&
    1 <= d.day <= DaysInMonth(d.month0, InLeapYear(d.year)) &&
    0 <= d.hours < 24 && 0 <= d.minutes < 60
  }

  /** `a` comes before `b` in the calendar: the first differing field is smaller. */
  predicate CalendarBefore(a: DateValue, b: DateValue)
    requires a.Fields? && b.Fields?
  {
    a.year < b.year || (a.year == b.year &&
    (a.month0 < b.month0 || (a.month0 == b.month0 &&
    (a.day < b.day || (a.day == b.day &&
    (a.hours < b.hours || (a.hours == b.hours && a.minutes < b.minutes)))))))
  }

  /** For dates inside the calendar, the time value orders them as the calendar does and tells
      different dates apart, so "newest first" by time value is newest first by date. */
  lemma CalendarOrder(a: DateValue, b: DateValue)
    requires InCalendar(a) && InCalendar(b)
    ensures Minutes(a) < Minutes(b) <==> CalendarBefore(a, b)
    ensures Minutes(a) == Minutes(b) <==> a == b
  {
    if CalendarBefore(a, b) {
      BeforeIsEarlier(a, b);
    } else if CalendarBefore(b, a) {
      BeforeIsEarlier(b, a);
    }
  }

  /** The day number of an in-calendar date. */
  function DayOf(d: DateValue): int
    requires InCalendar(d)
  {
    DayFromYear(d.year) + DaysBeforeMonth(d.month0, InLeapYear(d.year)) + d.day - 1
  }

  lemma BeforeIsEarlier(a: DateValue, b: DateValue)
    requires InCalendar(a) && InCalendar(b) && CalendarBefore(a, b)
    ensures Minutes(a) < Minutes(b)
  {
    MinutesOfDay(a);
    MinutesOfDay(b);
    if a.year != b.year || a.month0 != b.month0 || a.day != b.day {
      DaysInOrder(a, b);
    }
  }

  /** The time value counts whole days, then hours and minutes within the day. */
  lemma MinutesOfDay(d: DateValue)
    requires InCalendar(d)
    ensures Minutes(d) == DayOf(d) * 1440 + d.hours * 60 + d.minutes
    ensures 0 <= d.hours * 60 + d.minutes < 1440
  {
    assert d.month0 / 12 == 0 && d.month0 % 12 == d.month0;
    assert MakeDay(d.year, d.month0, d.day) == DayOf(d);
  }

  /** An earlier calendar day has a smaller day number. */
  lemma DaysInOrder(a: DateValue, b: DateValue)
    requires InCalendar(a) && InCalendar(b)
    requires a.year < b.year || (a.year == b.year &&
      (a.month0 < b.month0 || (a.month0 == b.month0 && a.day < b.day)))
    ensures DayOf(a) < DayOf(b)
  {
    var leap := InLeapYear(a.year);
    if a.year < b.year {
      YearsInOrder(a.year, b.year);
      MonthsInOrder(a.month0, 12, leap);
    } else if a.month0 < b.month0 {
      MonthsInOrder(a.month0, b.month0, leap);
    }
  }

  /** The days before month `m2` cover month `m1` and all of its days (12 stands for the end of
      the year). */
  lemma MonthsInOrder(m1: int, m2: int, leap: bool)
    requires 0 <= m1 < m2 <= 12
    ensures DaysBeforeMonth(m1, leap) + DaysInMonth(m1, leap) <=
      (if m2 == 12 then (if leap then 366 else 365) else DaysBeforeMonth(m2, leap))
  {
  }

  /** A year has 366 days if it is a leap year and 365 otherwise. */
  lemma NextYear(y: int)
    ensures DayFromYear(y + 1) == DayFromYear(y) + (if InLeapYear(y) then 366 else 365)
  {
    Step4(y);
    Step100(y);
    Step400(y);
    LeapNesting(y);
    var gain := (if y % 4 == 0 then 1 else 0) - (if y % 100 == 0 then 1 else 0) + (if y % 400 == 0 then 1 else 0);
    assert DayFromYear(y + 1) == DayFromYear(y) + 365 + gain;
    assert gain == if InLeapYear(y) then 1 else 0;
  }

  /** Every fourth century year is a century year, and every century year a fourth year. */
  lemma LeapNesting(y: int)
    ensures y % 400 == 0 ==> y % 100 == 0
    ensures y % 100 == 0 ==> y % 4 == 0
  {
    if y % 400 == 0 {
      var q := y / 400;
      assert y == 100 * (4 * q);
    }
    if y % 100 == 0 {
      var q := y / 100;
      assert y == 4 * (25 * q);
    }
  }

  lemma Step4(y: int)
    ensures (y - 1968) / 4 == (y - 1969) / 4 + (if y % 4 == 0 then 1 else 0)
  {
    var q, r := (y - 1969) / 4, (y - 1969) % 4;
    if r == 3 {
      assert y - 1968 == 4 * (q + 1) && y == 4 * (q + 493);
    } else {
      assert y - 1968 == 4 * q + (r + 1) && y == 4 * (q + 492) + (r + 1);
    }
  }

  lemma Step100(y: int)
    ensures (y - 1900) / 100 == (y - 1901) / 100 + (if y % 100 == 0 then 1 else 0)
  {
    var q, r := (y - 1901) / 100, (y - 1901) % 100;
    if r == 99 {
      assert y - 1900 == 100 * (q + 1) && y == 100 * (q + 20);
    } else {
      assert y - 1900 == 100 * q + (r + 1) && y == 100 * (q + 19) + (r + 1);
    }
  }

  lemma Step400(y: int)
    ensures (y - 1600) / 400 == (y - 1601) / 400 + (if y % 400 == 0 then 1 else 0)
  {
    var q, r := (y - 1601) / 400, (y - 1601) % 400;
    if r == 399 {
      assert y - 1600 == 400 * (q + 1) && y == 400 * (q + 5);
    } else {
      assert y - 1600 == 400 * q + (r + 1) && y == 400 * (q + 4) + (r + 1);
    }
  }

  /** Every day of year `y1` comes before the first day of a later year. */
  lemma YearsInOrder(y1: int, y2: int)
    requires y1 < y2
    ensures DayFromYear(y1) + (if InLeapYear(y1) then 366 else 365) <= DayFromYear(y2)
    decreases y2 - y1
  {
    NextYear(y1);
    if y1 + 1 < y2 {
      YearsInOrder(y1 + 1, y2);
    }
  }

  /** The constructor with arguments after `parseInt`: any NaN argument gives an invalid date. */
  function NewDate(y: Option<int>, m: Option<int>, d: Option<int>, h: Option<int>, mi: Option<int>): (r: DateValue)
    ensures r.InvalidDate? <==> y.None? || m.None? || d.None? || h.None? || mi.None?
    ensures r.Fields? ==> r == Fields(y.value, m.value, d.value, h.value, mi.value)
  {
    if y.Some? && m.Some? && d.Some? && h.Some? && mi.Some? then
      Fields(y.value, m.value, d.value, h.value, mi.value)
    else InvalidDate
  }

  /** `parseInt(month) - 1`; NaN stays NaN. */
  function MinusOne(o: Option<int>): (r: Option<int>)
    ensures r.Some? <==> o.Some?
    ensures r.Some? ==> r.value == o.value - 1
  {
    match o
    case None => None
    case Some(v) => Some(v - 1)
  }

  // The primary pattern /(\d{1,2})\.(\d{1,2})\.(\d{4})\s+(\d{1,2}):(\d{1,2})/.

  datatype Captures = Captures(day: string, month: string, year: string, hours: string, minutes: string)

  /** Captures shaped as the pattern's groups: digit strings of lengths 1-2, 1-2, 4, 1-2 and 1-2. */
  predicate WellShaped(c: Captures)
  {
    1 <= |c.day| <= 2 && AllDigits(c.day) && 1 <= |c.month| <= 2 && AllDigits(c.month) &&
    |c.year| == 4 && AllDigits(c.year) && 1 <= |c.hours| <= 2 && AllDigits(c.hours) &&
    1 <= |c.minutes| <= 2 && AllDigits(c.minutes)
  }

  /** The lengths of a match's day, month, white space, hours and minutes; the year has four digits. */
  datatype Spans = Spans(dl: nat, ml: nat, wl: nat, hl: nat, nl: nat)

  /** Where the month, the year, the white space, the hours and the minutes of a match at `p`
      begin, and where the match ends. */
  function MonthStart(p: nat, sp: Spans): nat { p + sp.dl + 1 }
  function YearStart(p: nat, sp: Spans): nat { MonthStart(p, sp) + sp.ml + 1 }
  function SpaceStart(p: nat, sp: Spans): nat { YearStart(p, sp) + 4 }
  function HoursStart(p: nat, sp: Spans): nat { SpaceStart(p, sp) + sp.wl }
  function MinutesStart(p: nat, sp: Spans): nat { HoursStart(p, sp) + sp.hl + 1 }
  function MatchEnd(p: nat, sp: Spans): nat { MinutesStart(p, sp) + sp.nl }

  /** The regular expression matches at `p` with these lengths. */
  ghost predicate PatternAt(s: string, p: nat, sp: Spans)
  {
    1 <= sp.dl <= 2 && 1 <= sp.ml <= 2 && 1 <= sp.wl && 1 <= sp.hl <= 2 && 1 <= sp.nl <= 2 &&
    MatchEnd(p, sp) <= |s| &&
    GroupOf(s, p, sp.dl, '.') && GroupOf(s, MonthStart(p, sp), sp.ml, '.') &&
    DigitsIn(s, YearStart(p, sp), SpaceStart(p, sp)) && SpacesIn(s, SpaceStart(p, sp), HoursStart(p, sp)) &&
    GroupOf(s, HoursStart(p, sp), sp.hl, ':') && DigitsIn(s, MinutesStart(p, sp), MatchEnd(p, sp))
  }

  /** `\d{k}` at `p` followed by `sep`. */
  predicate GroupOf(s: string, p: int, k: int, sep: char)
  {
    0 <= p && 0 <= k && p + k < |s| && DigitsIn(s, p, p + k) && s[p + k] == sep
  }

  /** `\d{1,2}` at `p` followed by `sep`: its length, trying two digits before one; 0 if none. */
  function GroupBefore(s: string, p: nat, sep: char): (n: nat)
    requires p <= |s|
    requires !IsDigit(sep)
    ensures n <= 2
    ensures n > 0 ==> GroupOf(s, p, n, sep)
  {
    if p + 2 < |s| && IsDigit(s[p]) && IsDigit(s[p + 1]) && s[p + 2] == sep then 2
    else if p + 1 < |s| && IsDigit(s[p]) && s[p + 1] == sep then 1
    else 0
  }

  /** A group of one or two digits before `sep` is the one `GroupBefore` finds: the two cannot
      both be there, since the second character is a digit in one and `sep` in the other. */
  lemma GroupBeforeFinds(s: string, p: nat, k: int, sep: char)
    requires p <= |s| && !IsDigit(sep)
    requires 1 <= k <= 2 && GroupOf(s, p, k, sep)
    ensures GroupBefore(s, p, sep) == k
  {
    assert IsDigit(s[p + 0]);
    if k == 1 {
      assert s[p + 1] == sep;
    } else {
      assert IsDigit(s[p + 1]);
    }
  }

  /** `\s+` at `p`, greedy: the length of the white-space run there. */
  function SpaceRun(s: string, p: nat): (n: nat)
    requires p <= |s|
    ensures p + n <= |s| && SpacesIn(s, p, p + n)
    ensures p + n < |s| ==> !IsSpace(s[p + n])
  {
    SkipSpaces(s, p) - p
  }

  /** The final greedy `\d{1,2}`. */
  function MinutesLength(s: string, q: nat): (n: nat)
    requires q <= |s|
    ensures n <= 2 && q + n <= |s| && DigitsIn(s, q, q + n)
    ensures q < |s| && IsDigit(s[q]) ==> n > 0
  {
    if q + 1 < |s| && IsDigit(s[q]) && IsDigit(s[q + 1]) then 2
    else if q < |s| && IsDigit(s[q]) then 1 else 0
  }

  /** The match starting exactly at `p`, with the regular expression's backtracking order:
      each `\d{1,2}` tries two digits first, and the minutes take two digits whenever two
      follow. */
  function MatchAt(s: string, p: nat): (r: Option<Spans>)
    requires p <= |s|
    ensures r.Some? ==> MatchEnd(p, r.value) <= |s|
  {
    var dl := GroupBefore(s, p, '.');
    if dl == 0 then None else
    var q1 := p + dl + 1;
    var ml := GroupBefore(s, q1, '.');
    if ml == 0 then None else
    var q2 := q1 + ml + 1;
    if !(q2 + 4 <= |s| && DigitsIn(s, q2, q2 + 4)) then None else
    var q3 := q2 + 4;
    var wl := SpaceRun(s, q3);
    if wl == 0 then None else
    var q4 := q3 + wl;
    var hl := GroupBefore(s, q4, ':');
    if hl == 0 then None else
    var nl := MinutesLength(s, q4 + hl + 1);
    if nl == 0 then None else
    Some(Spans(dl, ml, wl, hl, nl))
  }

  /** The groups of a match at `p`. */
  function CapturesOf(s: string, p: nat, sp: Spans): Captures
    requires MatchEnd(p, sp) <= |s|
  {
    Captures(s[p..p + sp.dl], s[MonthStart(p, sp)..MonthStart(p, sp) + sp.ml],
             s[YearStart(p, sp)..SpaceStart(p, sp)], s[HoursStart(p, sp)..HoursStart(p, sp) + sp.hl],
             s[MinutesStart(p, sp)..MatchEnd(p, sp)])
  }

  lemma DigitsInSlice(s: string, lo: int, hi: int)
    requires 0 <= lo <= hi <= |s| && DigitsIn(s, lo, hi)
    ensures AllDigits(s[lo..hi])
  {
  }

  /** A match of the regular expression spans twelve characters at least, and its groups are
      digit strings of the pattern's lengths. */
  lemma PatternCaptures(s: string, p: nat, sp: Spans)
    requires PatternAt(s, p, sp)
    ensures p + 12 <= MatchEnd(p, sp)
    ensures WellShaped(CapturesOf(s, p, sp))
  {
    DigitsInSlice(s, p, p + sp.dl);
    DigitsInSlice(s, MonthStart(p, sp), MonthStart(p, sp) + sp.ml);
    DigitsInSlice(s, YearStart(p, sp), SpaceStart(p, sp));
    DigitsInSlice(s, HoursStart(p, sp), HoursStart(p, sp) + sp.hl);
    DigitsInSlice(s, MinutesStart(p, sp), MatchEnd(p, sp));
  }

  /** A match found by `MatchAt` is a match of the regular expression. */
  lemma MatchAtSound(s: string, p: nat)
    requires p <= |s| && MatchAt(s, p).Some?
    ensures PatternAt(s, p, MatchAt(s, p).value)
  {
    var sp := MatchAt(s, p).value;
    assert GroupOf(s, p, sp.dl, '.');
    assert GroupOf(s, MonthStart(p, sp), sp.ml, '.');
    assert SpaceRun(s, SpaceStart(p, sp)) == sp.wl;
    assert GroupOf(s, HoursStart(p, sp), sp.hl, ':');
    assert MinutesLength(s, MinutesStart(p, sp)) == sp.nl;
  }

  /** Every match of the regular expression at `p` is found by `MatchAt`, with the same day,
      month, white space and hours, and minutes at least as long. */
  lemma MatchAtComplete(s: string, p: nat, sp: Spans)
    requires PatternAt(s, p, sp)
    ensures MatchAt(s, p).Some?
    ensures var found := MatchAt(s, p).value;
      found.dl == sp.dl && found.ml == sp.ml && found.wl == sp.wl && found.hl == sp.hl && found.nl >= sp.nl
  {
    GroupBeforeFinds(s, p, sp.dl, '.');
    GroupBeforeFinds(s, MonthStart(p, sp), sp.ml, '.');
    var q4 := HoursStart(p, sp);
    assert s[q4] == s[q4 + 0] && IsDigit(s[q4]);
    DigitIsNotSpace(s[q4]);
    SkipSpacesExact(s, SpaceStart(p, sp), sp.wl);
    GroupBeforeFinds(s, q4, sp.hl, ':');
    assert IsDigit(s[MinutesStart(p, sp)]);
  }

  /** `MatchAt` finds a match at `p` exactly when the regular expression has one there. */
  lemma MatchAtIffPattern(s: string, p: nat)
    requires p <= |s|
    ensures MatchAt(s, p).Some? <==> exists sp :: PatternAt(s, p, sp)
  {
    if MatchAt(s, p).Some? {
      MatchAtSound(s, p);
    }
    if exists sp :: PatternAt(s, p, sp) {
      var sp :| PatternAt(s, p, sp);
      MatchAtComplete(s, p, sp);
    }
  }

  datatype Found = Found(pos: nat, spans: Spans)

  /** The search of `s.match(pattern)` from `from`: the leftmost position with a match. */
  function FirstMatchFrom(s: string, from: nat): (r: Option<Found>)
    requires from <= |s|
    ensures r.Some? ==> from <= r.value.pos <= |s| && MatchAt(s, r.value.pos) == Some(r.value.spans)
    ensures r.Some? ==> forall p | from <= p < r.value.pos :: MatchAt(s, p).None?
    ensures r.None? ==> forall p | from <= p <= |s| :: MatchAt(s, p).None?
    decreases |s| - from
  {
    match MatchAt(s, from)
    case Some(sp) => Some(Found(from, sp))
    case None => if from == |s| then None else FirstMatchFrom(s, from + 1)
  }

  /** `s.match(pattern)`: the groups of the leftmost match, which have the pattern's shapes. */
  function FirstCaptures(s: string): (r: Option<Captures>)
    ensures r.Some? <==> exists p | 0 <= p <= |s| :: MatchAt(s, p).Some?
    ensures r.Some? ==> WellShaped(r.value)
  {
    match FirstMatchFrom(s, 0)
    case None => None
    case Some(f) =>
      MatchAtSound(s, f.pos);
      PatternCaptures(s, f.pos, f.spans);
      Some(CapturesOf(s, f.pos, f.spans))
  }

  /** Text shorter than the shortest match, `D.M.YYYY H:M` with twelve characters, has none. */
  lemma ShortTextHasNoMatch(s: string)
    requires |s| < 12
    ensures FirstCaptures(s).None?
  {
    if FirstCaptures(s).Some? {
      var f := FirstMatchFrom(s, 0).value;
      MatchAtSound(s, f.pos);
      PatternCaptures(s, f.pos, f.spans);
    }
  }

  // The fallback `split(/[\s.:/]+/)`.

  predicate IsSeparator(c: char)
  {
    IsSpace(c) || c == '.' || c == ':' || c == '/'
  }

  predicate NoSeparator(s: string)
  {
    forall i | 0 <= i < |s| :: !IsSeparator(s[i])
  }

  function FirstSeparator(s: string): (i: nat)
    ensures i <= |s| && NoSeparator(s[..i])
    ensures i < |s| ==> IsSeparator(s[i])
  {
    if s == [] || IsSeparator(s[0]) then 0
    else
      assert s[..1 + FirstSeparator(s[1..])] == [s[0]] + s[1..][..FirstSeparator(s[1..])];
      1 + FirstSeparator(s[1..])
  }

  function SeparatorRunEnd(s: string, i: nat): (j: nat)
    requires i <= |s|
    ensures i <= j <= |s|
    ensures forall k | i <= k < j :: IsSeparator(s[k])
    ensures j < |s| ==> !IsSeparator(s[j])
    decreases |s| - i
  {
    if i < |s| && IsSeparator(s[i]) then SeparatorRunEnd(s, i + 1) else i
  }

  /** `split` on runs of separators: the text between them; a leading or trailing
      separator gives an empty first or last token. */
  function Split(s: string): (parts: seq<string>)
    ensures |parts| >= 1
    ensures forall k | 0 <= k < |parts| :: NoSeparator(parts[k])
    ensures forall k | 0 < k < |parts| - 1 :: parts[k] != []
    ensures s != [] && !IsSeparator(s[0]) ==> parts[0] != []
    ensures s == [] ==> parts == [[]]
    decreases |s|
  {
    var i := FirstSeparator(s);
    if i == |s| then [s]
    else
      var j := SeparatorRunEnd(s, i);
      [s[..i]] + Split(s[j..])
  }

  /** The characters of the text that are not separators, in order. */
  function WithoutSeparators(s: string): (r: string)
    ensures |r| <= |s|
  {
    if s == [] then [] else (if IsSeparator(s[0]) then [] else [s[0]]) + WithoutSeparators(s[1..])
  }

  function Concat(parts: seq<string>): string
  {
    if parts == [] then [] else parts[0] + Concat(parts[1..])
  }

  lemma {:induction false} WithoutSeparatorsAppend(a: string, b: string)
    ensures WithoutSeparators(a + b) == WithoutSeparators(a) + WithoutSeparators(b)
  {
    if a == [] {
      assert a + b == b;
    } else {
      var head := if IsSeparator(a[0]) then [] else [a[0]];
      assert (a + b)[0] == a[0];
      assert (a + b)[1..] == a[1..] + b;
      calc {
        WithoutSeparators(a + b);
        head + WithoutSeparators(a[1..] + b);
        { WithoutSeparatorsAppend(a[1..], b); }
        head + (WithoutSeparators(a[1..]) + WithoutSeparators(b));
        (head + WithoutSeparators(a[1..])) + WithoutSeparators(b);
      }
    }
  }

  lemma {:induction false} WithoutSeparatorsKeepsTokens(s: string)
    requires NoSeparator(s)
    ensures WithoutSeparators(s) == s
  {
    if s != [] {
      WithoutSeparatorsKeepsTokens(s[1..]);
    }
  }

  lemma {:induction false} WithoutSeparatorsDropsRun(s: string)
    requires forall k | 0 <= k < |s| :: IsSeparator(s[k])
    ensures WithoutSeparators(s) == []
  {
    if s != [] {
      WithoutSeparatorsDropsRun(s[1..]);
    }
  }

  /** Joining the tokens gives back the text without its separators: `split` loses nothing else. */
  lemma {:induction false} SplitLosesOnlySeparators(s: string)
    ensures Concat(Split(s)) == WithoutSeparators(s)
    decreases |s|
  {
    var i := FirstSeparator(s);
    if i == |s| {
      assert s[..i] == s;
      WithoutSeparatorsKeepsTokens(s);
      assert Concat([s]) == s + Concat([]);
    } else {
      var j := SeparatorRunEnd(s, i);
      SplitLosesOnlySeparators(s[j..]);
      SplitStep(s, i, j);
    }
  }

  /** `split` gives at most one token more than there are separator characters. */
  lemma {:induction false} SplitTokenBound(s: string)
    ensures |Split(s)| <= 1 + |s| - |WithoutSeparators(s)|
    decreases |s|
  {
    var i := FirstSeparator(s);
    if i < |s| {
      var j := SeparatorRunEnd(s, i);
      SplitTokenBound(s[j..]);
      SplitUnfold(s, i, j);
      WithoutSeparatorsKeepsTokens(s[..i]);
      WithoutSeparatorsDropsRun(s[i..j]);
      ThreePieces(s, i, j);
      WithoutSeparatorsAppend(s[i..j], s[j..]);
      WithoutSeparatorsAppend(s[..i], s[i..j] + s[j..]);
    }
  }

  lemma SplitUnfold(s: string, i: nat, j: nat)
    requires i == FirstSeparator(s) < |s| && j == SeparatorRunEnd(s, i)
    ensures Split(s) == [s[..i]] + Split(s[j..])
  {
  }

  /** Text without a separator is one token. */
  lemma SplitOneToken(a: string)
    requires NoSeparator(a)
    ensures Split(a) == [a]
  {
  }

  /** A token, one separator and text that does not start with a separator split into that
      token followed by the tokens of the text. */
  lemma SplitFirstToken(a: string, sep: char, rest: string)
    requires NoSeparator(a) && IsSeparator(sep) && (rest == [] || !IsSeparator(rest[0]))
    ensures Split(a + [sep] + rest) == [a] + Split(rest)
  {
    var t := a + [sep] + rest;
    assert t[..|a|] == a && t[|a|] == sep && t[|a| + 1..] == rest;
    assert FirstSeparator(t) == |a| by {
      assert t[..|a| + 1][|a|] == sep;
    }
    if |a| + 1 < |t| {
      assert t[|a| + 1] == rest[0];
    }
    assert SeparatorRunEnd(t, |a|) == |a| + 1;
    SplitUnfold(t, |a|, |a| + 1);
  }

  /** A token, a whole run of separators and text that does not start with a separator split
      into that token followed by the tokens of the text: the run is one delimiter. */
  lemma SplitRun(a: string, run: string, rest: string)
    requires NoSeparator(a) && |run| > 0 && forall k | 0 <= k < |run| :: IsSeparator(run[k])
    requires rest == [] || !IsSeparator(rest[0])
    ensures Split(a + run + rest) == [a] + Split(rest)
  {
    var t := a + run + rest;
    var i, j := |a|, |a| + |run|;
    assert t[..i] == a && t[j..] == rest;
    assert t[i] == run[0];
    FirstSeparatorAt(t, i);
    forall k | i <= k < j ensures IsSeparator(t[k]) {
      assert t[k] == run[k - i];
    }
    if j < |t| {
      assert t[j] == rest[0];
    }
    SeparatorRunExact(t, i, j);
    SplitUnfold(t, i, j);
  }

  /** The first separator is the one after a separator-free prefix. */
  lemma FirstSeparatorAt(s: string, i: nat)
    requires i < |s| && NoSeparator(s[..i]) && IsSeparator(s[i])
    ensures FirstSeparator(s) == i
  {
    var f := FirstSeparator(s);
    assert forall k | 0 <= k < i :: s[..i][k] == s[k];
    assert forall k | 0 <= k < f :: s[..f][k] == s[k];
  }

  /** A run of separators from `i` to `j` that ends the text or a non-separator ends is skipped
      exactly. */
  lemma SeparatorRunExact(s: string, i: nat, j: nat)
    requires i <= j <= |s| && (forall k | i <= k < j :: IsSeparator(s[k]))
    requires j == |s| || !IsSeparator(s[j])
    ensures SeparatorRunEnd(s, i) == j
    decreases j - i
  {
    if i < j {
      SeparatorRunExact(s, i + 1, j);
    }
  }

  /** Three tokens, each followed by one separator but the last, split into those tokens. */
  lemma SplitThreeTokens(a: string, b: string, c: string, sep: char)
    requires NoSeparator(a) && NoSeparator(b) && NoSeparator(c) && IsSeparator(sep)
    requires b != [] && c != []
    ensures Split(a + [sep] + (b + [sep] + c)) == [a, b, c]
  {
    SplitOneToken(c);
    SplitFirstToken(b, sep, c);
    SplitFirstToken(a, sep, b + [sep] + c);
    assert (b + [sep] + c)[0] == b[0];
  }

  lemma SplitStep(s: string, i: nat, j: nat)
    requires i == FirstSeparator(s) < |s| && j == SeparatorRunEnd(s, i)
    requires Concat(Split(s[j..])) == WithoutSeparators(s[j..])
    ensures Concat(Split(s)) == WithoutSeparators(s)
  {
    SplitUnfold(s, i, j);
    WithoutSeparatorsKeepsTokens(s[..i]);
    WithoutSeparatorsDropsRun(s[i..j]);
    ThreePieces(s, i, j);
    JoinPieces(s, s[..i], s[i..j], s[j..], Split(s[j..]));
  }

  lemma ThreePieces(s: string, i: nat, j: nat)
    requires i <= j <= |s|
    ensures s == s[..i] + (s[i..j] + s[j..])
  {
  }

  lemma JoinPieces(s: string, a: string, b: string, c: string, rest: seq<string>)
    requires s == a + (b + c)
    requires WithoutSeparators(a) == a && WithoutSeparators(b) == []
    requires Concat(rest) == WithoutSeparators(c)
    ensures Concat([a] + rest) == WithoutSeparators(s)
  {
    assert ([a] + rest)[0] == a;
    assert ([a] + rest)[1..] == rest;
    WithoutSeparatorsAppend(b, c);
    WithoutSeparatorsAppend(a, b + c);
  }

  /** `new Date(parseInt(year), parseInt(month) - 1, parseInt(day), parseInt(hours),
      parseInt(minutes))`, the construction both branches of `parseDate` share. */
  function DateOf(day: string, month: string, year: string, hours: string, minutes: string): DateValue
  {
    NewDate(ParseInt(year), MinusOne(ParseInt(month)), ParseInt(day), ParseInt(hours), ParseInt(minutes))
  }

  /** The date of the primary pattern's groups. */
  function PrimaryDate(c: Captures): DateValue
  {
    DateOf(c.day, c.month, c.year, c.hours, c.minutes)
  }

  /** The date of the first five `split` tokens, read as day, month, year, hours, minutes. */
  function PositionalDate(parts: seq<string>): DateValue
    requires |parts| >= 5
  {
    DateOf(parts[0], parts[1], parts[2], parts[3], parts[4])
  }

  /** `parseDate`: the trimmed text's first match of the primary pattern gives its date;
      otherwise at least five `split` tokens give theirs; otherwise `new Date(0)`. */
  function ParseDate(text: string): (r: DateValue)
    ensures FirstCaptures(Trim(text)).Some? ==> r.Fields? && IsValid(r)
    ensures !IsValid(r) ==> FirstCaptures(Trim(text)).None? && |Split(Trim(text))| >= 5
  {
    var s := Trim(text);
    match FirstCaptures(s)
    case Some(c) =>
      PrimaryDateOfCaptures(c);
      PrimaryDate(c)
    case None =>
      var parts := Split(s);
      if |parts| >= 5 then PositionalDate(parts) else EpochZero
  }

  /** Arguments of at most four year digits and two digits elsewhere are far inside TimeClip's range. */
  lemma SmallFieldsAreValid(y: int, m: int, d: int, h: int, mi: int)
    requires 0 <= y < 10000 && -1 <= m < 99 && 0 <= d < 100 && 0 <= h < 100 && 0 <= mi < 100
    ensures IsValid(Fields(y, m, d, h, mi))
  {
    var fullYear := if 0 <= y <= 99 then 1900 + y else y;
    var ym := fullYear + m / 12;
    assert -1 <= m / 12 <= 8;
    assert 99 <= ym <= 10007;
    assert -700000 <= DayFromYear(ym) <= 3000000;
    var day := MakeDay(fullYear, m, d);
    assert -700000 <= day <= 3001000;
    assert -1100000000 <= day * 1440 <= 5000000000;
  }

  /** The groups of a match always give a valid date whose month index is the written month minus one. */
  lemma PrimaryDateOfCaptures(c: Captures)
    requires WellShaped(c)
    ensures PrimaryDate(c) == Fields(DecimalValue(c.year), DecimalValue(c.month) - 1, DecimalValue(c.day),
                                     DecimalValue(c.hours), DecimalValue(c.minutes))
    ensures IsValid(PrimaryDate(c))
  {
    ParseIntDigits(c.year);
    ParseIntDigits(c.month);
    ParseIntDigits(c.day);
    ParseIntDigits(c.hours);
    ParseIntDigits(c.minutes);
    SmallDecimalBounds(c.year);
    SmallDecimalBounds(c.month);
    SmallDecimalBounds(c.day);
    SmallDecimalBounds(c.hours);
    SmallDecimalBounds(c.minutes);
    SmallFieldsAreValid(DecimalValue(c.year), DecimalValue(c.month) - 1, DecimalValue(c.day),
                        DecimalValue(c.hours), DecimalValue(c.minutes));
  }

  /** The primary pattern: the stored month index is always the written month minus one,
      and the date is valid. */
  lemma ParseDatePrimary(text: string)
    requires FirstCaptures(Trim(text)).Some?
    ensures var c := FirstCaptures(Trim(text)).value;
      WellShaped(c) &&
      ParseDate(text) == Fields(DecimalValue(c.year), DecimalValue(c.month) - 1, DecimalValue(c.day),
                                DecimalValue(c.hours), DecimalValue(c.minutes))
    ensures IsValid(ParseDate(text))
  {
    PrimaryDateOfCaptures(FirstCaptures(Trim(text)).value);
  }

  /** Only the positional fallback can produce an invalid date (a token that is not a number,
      or a value outside TimeClip's range). */
  lemma InvalidOnlyFromFallback(text: string)
    requires !IsValid(ParseDate(text))
    ensures FirstCaptures(Trim(text)).None?
    ensures |Split(Trim(text))| >= 5
  {
    if FirstCaptures(Trim(text)).Some? {
      ParseDatePrimary(text);
    }
  }

  /** The fallback reads the tokens as day, month, year, hours and minutes, in that order,
      with the month index one less than the written month. */
  lemma FallbackPositional(text: string)
    requires FirstCaptures(Trim(text)).None? && |Split(Trim(text))| >= 5
    requires forall k | 0 <= k < 5 :: ParseInt(Split(Trim(text))[k]).Some?
    ensures var parts := Split(Trim(text));
      ParseDate(text) == Fields(ParseInt(parts[2]).value, ParseInt(parts[1]).value - 1,
                                ParseInt(parts[0]).value, ParseInt(parts[3]).value, ParseInt(parts[4]).value)
  {
    var parts := Split(Trim(text));
    assert ParseDate(text) == PositionalDate(parts);
    assert ParseInt(parts[0]).Some? && ParseInt(parts[1]).Some? && ParseInt(parts[2]).Some?;
    assert ParseInt(parts[3]).Some? && ParseInt(parts[4]).Some?;
  }

  /** A fallback token that is not a number makes the date invalid. */
  lemma FallbackTokenNaN(text: string, k: nat)
    requires FirstCaptures(Trim(text)).None?
    requires k < 5 <= |Split(Trim(text))| && ParseInt(Split(Trim(text))[k]).None?
    ensures ParseDate(text) == InvalidDate
  {
    PositionalNaN(Split(Trim(text)), k);
  }

  lemma PositionalNaN(parts: seq<string>, k: nat)
    requires k < 5 <= |parts| && ParseInt(parts[k]).None?
    ensures PositionalDate(parts) == InvalidDate
  {
    TokenNaN(ParseInt(parts[0]), ParseInt(parts[1]), ParseInt(parts[2]), ParseInt(parts[3]), ParseInt(parts[4]), k);
  }

  /** Token `k` of day, month, year, hours and minutes is NaN, so the date is invalid. */
  lemma TokenNaN(d: Option<int>, m: Option<int>, y: Option<int>, h: Option<int>, mi: Option<int>, k: nat)
    requires k < 5
    requires (k == 0 ==> d.None?) && (k == 1 ==> m.None?) && (k == 2 ==> y.None?)
    requires (k == 3 ==> h.None?) && (k == 4 ==> mi.None?)
    ensures NewDate(y, MinusOne(m), d, h, mi) == InvalidDate
  {
  }

  /** Text with no match and fewer than five tokens gives the epoch sentinel, which is valid. */
  lemma FallbackEpoch(text: string)
    requires FirstCaptures(Trim(text)).None? && |Split(Trim(text))| < 5
    ensures ParseDate(text) == EpochZero && IsValid(ParseDate(text))
  {
  }
}
