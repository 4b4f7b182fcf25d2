/** Reading an RFC 3339 timestamp and printing its instant in UTC. */
module Timestamp {
  import opened Strings
  import opened Calendar

  datatype Zone = Zulu | Offset(minus: bool, hours: int, minutes: int)

  /** The parts of a timestamp as written; `fraction` holds zero to three digits of the second. */
  datatype Stamp = Stamp(
    year: int, month: int, day: int, hour: int, minute: int, second: int, fraction: Text, zone: Zone)

  // ------------------------------------------------------------- notation

  function Two(n: int): (t: Text)
    requires 0 <= n < 100
    ensures |t| == 2
  {
    [ZERO + n / 10, ZERO + n % 10]
  }

  function Four(n: int): Text
    requires 0 <= n < 10_000
  {
    Two(n / 100) + Two(n % 100)
  }

  function ReadTwo(t: Text, i: nat): int
    requires i + 2 <= |t| && IsDigit(t[i]) && IsDigit(t[i + 1])
  {
    10 * (t[i] - ZERO) + (t[i + 1] - ZERO)
  }

  predicate DigitsAt(t: Text, i: nat) {
    i + 2 <= |t| && IsDigit(t[i]) && IsDigit(t[i + 1])
  }

  const UPPER_T: Unit := 84

  /** What the regular expression of `timestamp` can capture. */
  predicate Written(s: Stamp) {
    && 0 <= s.year < 10_000 && 0 <= s.month < 100 && 0 <= s.day < 100
    && 0 <= s.hour < 100 && 0 <= s.minute < 100 && 0 <= s.second < 100
    && |s.fraction| <= 3 && AllDigits(s.fraction)
    && (s.zone.Offset? ==> 0 <= s.zone.hours < 100 && 0 <= s.zone.minutes < 100)
  }

  function RenderZone(z: Zone): Text
    requires z.Offset? ==> 0 <= z.hours < 100 && 0 <= z.minutes < 100
  {
    match z
    case Zulu => [UPPER_Z]
    case Offset(minus, hours, minutes) => [if minus then MINUS else PLUS] + Two(hours) + [COLON] + Two(minutes)
  }

  function RenderDay(s: Stamp): (t: Text)
    requires Written(s)
    ensures |t| == 10
  {
    Four(s.year) + [MINUS] + Two(s.month) + [MINUS] + Two(s.day)
  }

  function RenderTime(s: Stamp): (t: Text)
    requires Written(s)
    ensures |t| == 8
  {
    Two(s.hour) + [COLON] + Two(s.minute) + [COLON] + Two(s.second)
  }

  function RenderDate(s: Stamp): Text
    requires Written(s)
  {
    RenderDay(s) + [UPPER_T] + RenderTime(s)
  }

  function RenderTail(s: Stamp): Text
    requires Written(s)
  {
    (if s.fraction == [] then [] else [DOT] + s.fraction) + RenderZone(s.zone)
  }

  /** The text of a stamp, in the grammar of section 5.6 of RFC 3339. */
  function Render(s: Stamp): Text
    requires Written(s)
  {
    RenderDate(s) + RenderTail(s)
  }

  // ---------------------------------------------------- the script's match

  function MatchZone(t: Text): Option<Zone> {
    if t == [UPPER_Z] then Some(Zulu)
    else if |t| == 6 && (t[0] == PLUS || t[0] == MINUS) && DigitsAt(t, 1) && t[3] == COLON && DigitsAt(t, 4) then
      Some(Offset(t[0] == MINUS, ReadTwo(t, 1), ReadTwo(t, 4)))
    else None
  }

  /** The fixed part: nineteen units of date and time. */
  predicate DateShaped(t: Text) {
    && |t| >= 19
    && DigitsAt(t, 0) && DigitsAt(t, 2) && t[4] == MINUS && DigitsAt(t, 5) && t[7] == MINUS && DigitsAt(t, 8)
    && t[10] == UPPER_T && DigitsAt(t, 11) && t[13] == COLON && DigitsAt(t, 14) && t[16] == COLON && DigitsAt(t, 17)
  }

  /** Optional fraction, then the zone, up to the end. */
  function MatchTail(t: Text): Option<(Text, Zone)> {
    if t != [] && t[0] == DOT then
      var k := DigitRun(t[1..]);
      if 1 <= k <= 3 then
        match MatchZone(t[1 + k..])
        case Some(z) => Some((t[1..1 + k], z))
        case None => None
      else None
    else
      match MatchZone(t)
      case Some(z) => Some(([], z))
      case None => None
  }

  function Match(t: Text): Option<Stamp> {
    if !DateShaped(t) then None
    else
      match MatchTail(t[19..])
      case None => None
      case Some((fraction, zone)) =>
        Some(Stamp(100 * ReadTwo(t, 0) + ReadTwo(t, 2), ReadTwo(t, 5), ReadTwo(t, 8),
                   ReadTwo(t, 11), ReadTwo(t, 14), ReadTwo(t, 17), fraction, zone))
  }

  /** The range and calendar tests that follow the match. */
  predicate Accepted(s: Stamp) {
    && s.year >= 1970 && 1 <= s.month <= 12 && 1 <= s.day <= 31
    && 0 <= s.hour <= 23 && 0 <= s.minute <= 59 && 0 <= s.second <= 59
    && var day := MakeDay(s.year, s.month, s.day);
    && DayFromYear(FIRST_YEAR) <= day
    && MonthOf(day) == s.month && DateOf(day) == s.day
    && s.zone != Offset(true, 0, 0)
    && (s.zone.Offset? ==> s.zone.hours <= 23 && s.zone.minutes <= 59)
  }

  // -------------------------------------------------------------- instants

  const DAY_MS := 86_400_000

  function FractionMs(fraction: Text): int
    requires AllDigits(fraction)
  {
    if |fraction| == 0 then 0
    else if |fraction| == 1 then 100 * (fraction[0] - ZERO)
    else if |fraction| == 2 then 100 * (fraction[0] - ZERO) + 10 * (fraction[1] - ZERO)
    else 100 * (fraction[0] - ZERO) + 10 * (fraction[1] - ZERO) + (fraction[2] - ZERO)
  }

  function ZoneMs(z: Zone): int {
    match z
    case Zulu => 0
    case Offset(minus, hours, minutes) =>
      if minus then -(60_000 * (60 * hours + minutes)) else 60_000 * (60 * hours + minutes)
  }

  function TimeMs(s: Stamp): int
    requires AllDigits(s.fraction)
  {
    1000 * (60 * (60 * s.hour + s.minute) + s.second) + FractionMs(s.fraction)
  }

  /** `Date.parse`: milliseconds since the epoch. */
  function Instant(s: Stamp): int
    requires 1 <= s.month <= 12 && AllDigits(s.fraction)
  {
    DAY_MS * MakeDay(s.year, s.month, s.day) + TimeMs(s) - ZoneMs(s.zone)
  }

  /** The UTC fields `toISOString` prints. */
  function StampOf(ms: int): Stamp
    requires DAY_MS * DayFromYear(FIRST_YEAR) <= ms
  {
    var day, time := ms / DAY_MS, ms % DAY_MS;
    Stamp(YearOf(day), MonthOf(day), DateOf(day),
          time / 3_600_000, time / 60_000 % 60, time / 1000 % 60,
          [ZERO + time / 100 % 10, ZERO + time / 10 % 10, ZERO + time % 10], Zulu)
  }

  const MS_1970 := 0
  const MS_10000 := DAY_MS * DayFromYear(10_000)
  const MS_10001 := DAY_MS * DayFromYear(10_001)

  /** `toISOString` for the years a timestamp can reach: 10000 needs the signed six-digit form. */
  function Iso(ms: int): Text
    requires DAY_MS * DayFromYear(FIRST_YEAR) <= ms < MS_10001
  {
    StampOfWritten(ms);
    var s := StampOf(ms);
    if s.year < 10_000 then Render(s)
    else [PLUS, ZERO] + [ZERO + 1] + Render(s.(year := s.year - 10_000))
  }

  /** `timestamp(value)`: the normalised text, or none where the script refuses. */
  function Normalise(t: Text): Option<Text> {
    match Match(t)
    case None => None
    case Some(s) =>
      MatchWritten(t);
      if |t| <= 35 && Accepted(s) then
        InstantInRange(s);
        Some(Iso(Instant(s)))
      else None
  }

  /** The instant of an accepted text. */
  function InstantOf(t: Text): int
    requires Normalise(t).Some?
  {
    MatchWritten(t);
    Instant(Match(t).value)
  }

  // ------------------------------------------------ the match is a grammar

  lemma TwoRoundTrip(t: Text, i: nat)
    requires DigitsAt(t, i)
    ensures 0 <= ReadTwo(t, i) < 100 && Two(ReadTwo(t, i)) == t[i..i + 2]
  {
  }

  lemma ReadTwoOfTwo(n: int, t: Text, i: nat)
    requires 0 <= n < 100 && i + 2 <= |t| && t[i..i + 2] == Two(n)
    ensures DigitsAt(t, i) && ReadTwo(t, i) == n
  {
    assert t[i] == t[i..i + 2][0] && t[i + 1] == t[i..i + 2][1];
  }

  lemma MatchZoneRenders(t: Text)
    requires MatchZone(t).Some?
    ensures var z := MatchZone(t).value;
            (z.Offset? ==> 0 <= z.hours < 100 && 0 <= z.minutes < 100) && RenderZone(z) == t
  {
    if MatchZone(t).value.Offset? {
      TwoRoundTrip(t, 1);
      TwoRoundTrip(t, 4);
      assert t == [t[0]] + t[1..3] + [t[3]] + t[4..6];
    }
  }

  lemma RenderZoneMatches(z: Zone)
    requires z.Offset? ==> 0 <= z.hours < 100 && 0 <= z.minutes < 100
    ensures MatchZone(RenderZone(z)) == Some(z)
    ensures !IsDigit(RenderZone(z)[0]) && RenderZone(z)[0] != DOT
  {
    var t := RenderZone(z);
    if z.Offset? {
      assert t[1..3] == Two(z.hours) && t[4..6] == Two(z.minutes);
      ReadTwoOfTwo(z.hours, t, 1);
      ReadTwoOfTwo(z.minutes, t, 4);
    }
  }

  lemma MatchTailRenders(t: Text)
    requires MatchTail(t).Some?
    ensures var (fraction, z) := MatchTail(t).value;
            && |fraction| <= 3 && AllDigits(fraction)
            && (z.Offset? ==> 0 <= z.hours < 100 && 0 <= z.minutes < 100)
            && (if fraction == [] then [] else [DOT] + fraction) + RenderZone(z) == t
  {
    if t != [] && t[0] == DOT {
      var k := DigitRun(t[1..]);
      MatchZoneRenders(t[1 + k..]);
      assert t[1..1 + k] == t[1..][..k];
      assert t == [t[0]] + t[1..1 + k] + t[1 + k..];
    } else {
      MatchZoneRenders(t);
    }
  }

  lemma RenderTailMatches(s: Stamp)
    requires Written(s)
    ensures MatchTail(RenderTail(s)) == Some((s.fraction, s.zone))
  {
    var t, z := RenderTail(s), RenderZone(s.zone);
    RenderZoneMatches(s.zone);
    if s.fraction == [] {
      assert t == z;
    } else {
      assert t[1..] == s.fraction + z;
      DigitRunIs(s.fraction, z);
      assert t[1 + |s.fraction|..] == z && t[1..1 + |s.fraction|] == s.fraction;
    }
  }

  /** A matched text is the rendering of its stamp. */
  lemma MatchRenders(t: Text)
    requires Match(t).Some?
    ensures Written(Match(t).value) && Render(Match(t).value) == t
  {
    MatchWritten(t);
    var s := Match(t).value;
    MatchTailRenders(t[19..]);
    assert RenderTail(s) == t[19..];
    RenderDateReads(t, s);
    assert t == t[..19] + t[19..];
  }

  lemma MatchWritten(t: Text)
    ensures Match(t).Some? ==> Written(Match(t).value)
  {
    if Match(t).Some? {
      MatchTailRenders(t[19..]);
    }
  }

  lemma RenderDayReads(t: Text, s: Stamp)
    requires Match(t) == Some(s) && Written(s)
    ensures RenderDay(s) == t[..10]
  {
    TwoRoundTrip(t, 0);
    TwoRoundTrip(t, 2);
    TwoRoundTrip(t, 5);
    TwoRoundTrip(t, 8);
    assert s.year / 100 == ReadTwo(t, 0) && s.year % 100 == ReadTwo(t, 2);
    hide Two, ReadTwo, MatchTail;
    assert Four(s.year) == t[0..2] + t[2..4];
    assert t[..10] == t[0..2] + t[2..4] + [t[4]] + t[5..7] + [t[7]] + t[8..10];
  }

  lemma RenderTimeReads(t: Text, s: Stamp)
    requires Match(t) == Some(s) && Written(s)
    ensures RenderTime(s) == t[11..19]
  {
    TwoRoundTrip(t, 11);
    TwoRoundTrip(t, 14);
    TwoRoundTrip(t, 17);
    hide Two, ReadTwo, MatchTail;
    assert t[11..19] == t[11..13] + [t[13]] + t[14..16] + [t[16]] + t[17..19];
  }

  lemma RenderDateReads(t: Text, s: Stamp)
    requires Match(t) == Some(s) && Written(s)
    ensures RenderDate(s) == t[..19]
  {
    hide RenderDay, RenderTime, ReadTwo, MatchTail;
    RenderDayReads(t, s);
    RenderTimeReads(t, s);
    assert t[..19] == t[..10] + [t[10]] + t[11..19];
  }

  /** Every written stamp is matched as itself. */
  lemma RenderMatches(s: Stamp)
    requires Written(s)
    ensures Match(Render(s)) == Some(s)
  {
    var t := Render(s);
    RenderTailMatches(s);
    assert t[19..] == RenderTail(s);
    RenderDateShape(s, RenderTail(s));
  }

  lemma DayPieces(s: Stamp)
    requires Written(s)
    ensures var t := RenderDay(s);
            && t[0..2] == Two(s.year / 100) && t[2..4] == Two(s.year % 100) && t[4] == MINUS
            && t[5..7] == Two(s.month) && t[7] == MINUS && t[8..10] == Two(s.day)
  {
    hide Two;
  }

  lemma TimePieces(s: Stamp)
    requires Written(s)
    ensures var t := RenderTime(s);
            && t[0..2] == Two(s.hour) && t[2] == COLON && t[3..5] == Two(s.minute) && t[5] == COLON &&
               t[6..8] == Two(s.second)
  {
    hide Two;
  }

  /** Where each part of a printed date lies. */
  lemma RenderDatePieces(s: Stamp, tail: Text)
    requires Written(s)
    ensures var t := RenderDate(s) + tail;
            && t[0..2] == Two(s.year / 100) && t[2..4] == Two(s.year % 100) && t[5..7] == Two(s.month) &&
               t[8..10] == Two(s.day)
            && t[11..13] == Two(s.hour) && t[14..16] == Two(s.minute) && t[17..19] == Two(s.second)
            && t[4] == MINUS && t[7] == MINUS && t[10] == UPPER_T && t[13] == COLON && t[16] == COLON
  {
    hide Two, RenderDay, RenderTime;
    DayPieces(s);
    TimePieces(s);
    var day, time := RenderDay(s), RenderTime(s);
    var t := RenderDate(s) + tail;
    assert t[0..2] == day[0..2] && t[2..4] == day[2..4] && t[5..7] == day[5..7] && t[8..10] == day[8..10];
    assert t[11..13] == time[0..2] && t[14..16] == time[3..5] && t[17..19] == time[6..8];
  }

  lemma RenderDateShape(s: Stamp, tail: Text)
    requires Written(s)
    ensures var t := RenderDate(s) + tail;
            && DateShaped(t)
            && 100 * ReadTwo(t, 0) + ReadTwo(t, 2) == s.year && ReadTwo(t, 5) == s.month && ReadTwo(t, 8) == s.day
            && ReadTwo(t, 11) == s.hour && ReadTwo(t, 14) == s.minute && ReadTwo(t, 17) == s.second
  {
    hide Two, ReadTwo, DigitsAt, RenderDay, RenderTime;
    RenderDatePieces(s, tail);
    var t := RenderDate(s) + tail;
    assert 0 <= s.year / 100 < 100 && 0 <= s.year % 100 < 100;
    ReadTwoOfTwo(s.year / 100, t, 0);
    ReadTwoOfTwo(s.year % 100, t, 2);
    ReadTwoOfTwo(s.month, t, 5);
    ReadTwoOfTwo(s.day, t, 8);
    ReadTwoOfTwo(s.hour, t, 11);
    ReadTwoOfTwo(s.minute, t, 14);
    ReadTwoOfTwo(s.second, t, 17);
  }

  lemma RenderStartsWithDigit(s: Stamp)
    requires Written(s)
    ensures |Render(s)| >= 20 && IsDigit(Render(s)[0])
  {
    RenderZoneMatches(s.zone);
  }

  // -------------------------------------------- printing keeps the instant

  lemma StampOfWritten(ms: int)
    requires DAY_MS * DayFromYear(FIRST_YEAR) <= ms < MS_10001
    ensures var s := StampOf(ms);
            && FIRST_YEAR <= s.year <= 10_000
            && (s.year < 10_000 ==> Written(s))
            && (s.year == 10_000 ==> Written(s.(year := 0)))
            && (s.year < 1970 <==> ms < MS_1970)
            && (s.year < 10_000 <==> ms < MS_10000)
  {
    hide YearOf, MonthOf, DateOf, MakeDay;
    DayToCivilToDay(ms / DAY_MS);
    YearOfMoment(ms);
    TimeParts(ms % DAY_MS);
  }

  lemma YearOfMoment(ms: int)
    requires DAY_MS * DayFromYear(FIRST_YEAR) <= ms < MS_10001
    ensures var y := YearOf(ms / DAY_MS);
            FIRST_YEAR <= y <= 10_000 && (y < 1970 <==> ms < MS_1970) && (y < 10_000 <==> ms < MS_10000)
  {
    var day := ms / DAY_MS;
    YearFromFinds(FIRST_YEAR, day);
    hide YearFrom;
    YearPosition(YearOf(day), day, 10_001);
    YearPosition(YearOf(day), day, 10_000);
    YearPosition(YearOf(day), day, 1970);
    assert DayFromYear(1970) == 0;
  }

  /** A day lies before a year exactly when its own year does. */
  lemma YearPosition(y: int, day: int, bound: int)
    requires DayFromYear(y) <= day < DayFromYear(y + 1)
    ensures y < bound <==> day < DayFromYear(bound)
  {
    hide DayFromYear;
    if y < bound {
      YearsAscend(y + 1, bound);
    } else {
      YearsAscend(bound, y);
    }
  }

  /** The time of day survives being split into fields. */
  lemma TimeParts(time: int)
    requires 0 <= time < DAY_MS
    ensures 0 <= time / 3_600_000 <= 23
    ensures 1000 * (60 * (60 * (time / 3_600_000) + time / 60_000 % 60) + time / 1000 % 60) +
            100 * (time / 100 % 10) + 10 * (time / 10 % 10) + time % 10 == time
  {
    var seconds, minutes := time / 1000, time / 60_000;
    assert minutes == seconds / 60 && time / 3_600_000 == minutes / 60;
    assert time / 100 == time / 10 / 10 && seconds == time / 100 / 10;
  }

  lemma StampOfTimes(ms: int)
    requires DAY_MS * DayFromYear(FIRST_YEAR) <= ms
    ensures var s := StampOf(ms);
            && 0 <= s.hour <= 23 && 0 <= s.minute <= 59 && 0 <= s.second <= 59 && |s.fraction| == 3 && s.zone == Zulu
  {
    TimeParts(ms % DAY_MS);
  }

  lemma StampOfInstant(ms: int)
    requires DAY_MS * DayFromYear(FIRST_YEAR) <= ms
    ensures var s := StampOf(ms); AllDigits(s.fraction) && Instant(s) == ms
    ensures var s := StampOf(ms); DayExists(s.year, s.month, s.day) && s.year >= FIRST_YEAR
  {
    var day, time := ms / DAY_MS, ms % DAY_MS;
    DayToCivilToDay(day);
    TimeParts(time);
    assert ms == DAY_MS * day + time;
  }

  /** Accepted texts denote instants from the last day of 1969 to the first of 10000. */
  lemma InstantInRange(s: Stamp)
    requires Written(s) && Accepted(s)
    ensures MS_1970 - DAY_MS < Instant(s) < MS_10000 + DAY_MS
    ensures DAY_MS * DayFromYear(FIRST_YEAR) <= Instant(s) < MS_10001
  {
    DayInRange(s);
    TimeInRange(s);
    hide TimeMs, ZoneMs, MakeDay, YearOf, MonthOf, DateOf;
    FirstYearStart();
  }

  lemma FirstYearStart()
    ensures DayFromYear(FIRST_YEAR) <= -1 && DayFromYear(10_000) + 1 <= DayFromYear(10_001)
  {
  }

  lemma DayInRange(s: Stamp)
    requires Written(s) && Accepted(s)
    ensures 0 <= MakeDay(s.year, s.month, s.day) < DayFromYear(10_000)
  {
    hide YearOf, MonthOf, DateOf, MakeDay, DayFromYear, DayExists;
    RollOverIsCalendar(s.year, s.month, s.day);
    DayInYear(s.year, s.month, s.day);
    MakeDayInYear(s.year, MakeDay(s.year, s.month, s.day));
  }

  lemma MakeDayInYear(year: int, day: int)
    requires 1970 <= year < 10_000 && DayFromYear(year) <= day < DayFromYear(year + 1)
    ensures 0 <= day < DayFromYear(10_000)
  {
    assert DayFromYear(1970) == 0;
    hide DayFromYear;
    YearsAscend(1970, year);
    YearsAscend(year + 1, 10_000);
  }

  lemma TimeInRange(s: Stamp)
    requires Written(s) && Accepted(s)
    ensures 0 <= TimeMs(s) < DAY_MS && -DAY_MS < ZoneMs(s.zone) < DAY_MS
  {
    hide YearOf, MonthOf, DateOf, MakeDay;
  }

  // ---------------------------------------------------------- main results

  /** A moment that exists: a day of the Gregorian calendar from 1970 on, a time of day, an offset below a day that is
      not the unknown offset `-00:00` of section 4.3 of RFC 3339. */
  predicate RealMoment(s: Stamp) {
    && s.year >= 1970 && DayExists(s.year, s.month, s.day)
    && 0 <= s.hour < 24 && 0 <= s.minute < 60 && 0 <= s.second < 60
    && (s.zone.Offset? ==> s.zone.hours < 24 && s.zone.minutes < 60 && s.zone != Offset(true, 0, 0))
  }

  lemma AcceptedIsReal(s: Stamp)
    requires Written(s)
    ensures Accepted(s) <==> RealMoment(s)
  {
    hide MakeDay, MonthOf, DateOf;
    if s.year >= 1970 && 1 <= s.month <= 12 && 1 <= s.day <= 31 {
      RollOverIsCalendar(s.year, s.month, s.day);
    }
  }

  /** Main result: accepted are exactly the written forms of moments that exist. */
  lemma AcceptedTexts(t: Text)
    ensures Normalise(t).Some? <==> exists s :: Written(s) && RealMoment(s) && t == Render(s)
  {
    hide Match, Accepted, RealMoment, Render;
    if Normalise(t).Some? {
      MatchRenders(t);
      AcceptedIsReal(Match(t).value);
    }
    if s :| Written(s) && RealMoment(s) && t == Render(s) {
      RenderMatches(s);
      AcceptedIsReal(s);
      RenderLength(s);
    }
  }

  /** Trailing zeros of the fraction change nothing: the longer text is accepted alike and normalises alike. */
  lemma FractionPadding(s: Stamp)
    requires Written(s) && |s.fraction| < 3
    ensures var padded := s.(fraction := s.fraction + [ZERO]);
            Written(padded) && Normalise(Render(padded)) == Normalise(Render(s))
  {
    hide Match, Render, Iso, MonthOf, DateOf, MakeDay;
    var padded := s.(fraction := s.fraction + [ZERO]);
    RenderMatches(s);
    RenderMatches(padded);
    RenderLength(s);
    RenderLength(padded);
  }

  /** Moving the clock and the offset together changes nothing: an hour ahead of UTC shows an hour more. */
  lemma OffsetShift(s: Stamp, hours: int)
    requires Written(s) && s.zone == Zulu
    requires 0 <= hours <= 23 && 0 <= s.hour && s.hour + hours <= 23
    ensures var shifted := s.(hour := s.hour + hours, zone := Offset(false, hours, 0));
            Written(shifted) && Normalise(Render(shifted)) == Normalise(Render(s))
  {
    hide Match, Render, Iso, MonthOf, DateOf, MakeDay;
    var shifted := s.(hour := s.hour + hours, zone := Offset(false, hours, 0));
    RenderMatches(s);
    RenderMatches(shifted);
    RenderLength(s);
    RenderLength(shifted);
  }

  /** Printing never merges two instants. */
  lemma IsoInjective(a: int, b: int)
    requires DAY_MS * DayFromYear(FIRST_YEAR) <= a < MS_10001
    requires DAY_MS * DayFromYear(FIRST_YEAR) <= b < MS_10001
    requires Iso(a) == Iso(b)
    ensures a == b
  {
    IsoStamp(a);
    IsoStamp(b);
    StampOfInstant(a);
    StampOfInstant(b);
    StampOfWritten(a);
    StampOfWritten(b);
    if StampOf(a).year == 10_000 {
      assert StampOf(b).year == 10_000;
      assert StampOf(a).(year := 0) == StampOf(b).(year := 0);
    }
    assert StampOf(a) == StampOf(b);
  }

  /** What can be read back from a printed instant. */
  lemma IsoStamp(ms: int)
    requires DAY_MS * DayFromYear(FIRST_YEAR) <= ms < MS_10001
    ensures var s := StampOf(ms);
            if s.year < 10_000 then Match(Iso(ms)) == Some(s) && Iso(ms)[0] != PLUS
            else Iso(ms)[0] == PLUS && |Iso(ms)| > 3 && Match(Iso(ms)[3..]) == Some(s.(year := 0))
  {
    hide Match, Render, StampOf;
    StampOfWritten(ms);
    var s := StampOf(ms);
    if s.year < 10_000 {
      RenderMatches(s);
      RenderStartsWithDigit(s);
    } else {
      var r := s.(year := 0);
      RenderMatches(r);
      RenderStartsWithDigit(r);
      assert Iso(ms)[3..] == Render(r);
    }
  }

  /** Main result: two accepted texts normalise to the same text exactly when they denote the same millisecond. */
  lemma NormalisationKeepsInstant(a: Text, b: Text)
    requires Normalise(a).Some? && Normalise(b).Some?
    ensures Normalise(a) == Normalise(b) <==> InstantOf(a) == InstantOf(b)
  {
    MatchWritten(a);
    MatchWritten(b);
    InstantInRange(Match(a).value);
    InstantInRange(Match(b).value);
    if Normalise(a) == Normalise(b) {
      IsoInjective(InstantOf(a), InstantOf(b));
    }
  }

  lemma MomentInRange(ms: int)
    requires MS_1970 <= ms < MS_10000
    ensures DAY_MS * DayFromYear(FIRST_YEAR) <= ms < MS_10001
  {
  }

  /** The text of a millisecond of the years 1970 to 9999. */
  function Moment(ms: int): Text
    requires MS_1970 <= ms < MS_10000
  {
    MomentInRange(ms);
    Iso(ms)
  }

  /** Every such text normalises to itself. */
  lemma MomentSettles(ms: int)
    requires MS_1970 <= ms < MS_10000
    ensures Normalise(Moment(ms)) == Some(Moment(ms)) && InstantOf(Moment(ms)) == ms
  {
    IsoStamp(ms);
    StampOfWritten(ms);
    StampOfInstant(ms);
    var s := StampOf(ms);
    hide Render, Match, MakeDay, StampOf;
    RenderLength(s);
    RollOverIsCalendar(s.year, s.month, s.day);
    TimeParts(ms % DAY_MS);
    StampOfTimes(ms);
    assert Accepted(s);
  }

  /** Main result: normalising again changes nothing exactly when the UTC instant lies in the years 1970 to 9999;
      otherwise the normalised text is itself refused. */
  lemma NormalisationSettles(t: Text)
    requires Normalise(t).Some?
    ensures var again := Normalise(Normalise(t).value);
            if MS_1970 <= InstantOf(t) < MS_10000 then again == Normalise(t) else again == None
  {
    MatchWritten(t);
    var ms := InstantOf(t);
    InstantInRange(Match(t).value);
    if MS_1970 <= ms < MS_10000 {
      MomentSettles(ms);
    } else {
      IsoStamp(ms);
      StampOfWritten(ms);
      var s := StampOf(ms);
      hide Render, Match, MakeDay, StampOf;
      if s.year >= 10_000 {
        PlusRefused(Iso(ms));
      }
    }
  }

  lemma PlusRefused(t: Text)
    requires t != [] && t[0] == PLUS
    ensures Match(t) == None
  {
  }

  /** The normalised text, when it is stable, denotes the same instant and has 24 units. */
  lemma SettledInstant(t: Text)
    requires Normalise(t) == Some(t)
    ensures |t| == 24 && MS_1970 <= InstantOf(t) < MS_10000
  {
    NormalisationSettles(t);
    MatchWritten(t);
    var ms := InstantOf(t);
    InstantInRange(Match(t).value);
    StampOfWritten(ms);
  }

  /** Outside the years 1970 to 9999 in UTC the normal form of an accepted text is refused. */
  lemma OutsideRefused(s: Stamp)
    requires Written(s) && Accepted(s) && !(MS_1970 <= Instant(s) < MS_10000)
    ensures Normalise(Render(s)).Some? && Normalise(Normalise(Render(s)).value) == None
  {
    hide Match, Iso, Render, Accepted, Instant;
    RenderMatches(s);
    RenderLength(s);
    NormalisationSettles(Render(s));
  }

  /** The exceptions exist at both ends: one minute ahead of UTC at the start of 1970, ... */
  lemma EarlyException(s: Stamp)
    requires s == Stamp(1970, 1, 1, 0, 0, 0, [], Offset(false, 0, 1))
    ensures Written(s) && Normalise(Render(s)).Some? && Normalise(Normalise(Render(s)).value) == None
  {
    hide Normalise, Render, YearOf, MonthOf, DateOf;
    RollOverIsCalendar(s.year, s.month, s.day);
    OutsideRefused(s);
  }

  /** ... and one minute behind UTC at the end of 9999. */
  lemma LateException(s: Stamp)
    requires s == Stamp(9999, 12, 31, 23, 59, 59, [], Offset(true, 0, 1))
    ensures Written(s) && Normalise(Render(s)).Some? && Normalise(Normalise(Render(s)).value) == None
  {
    hide Normalise, Render, YearOf, MonthOf, DateOf;
    RollOverIsCalendar(s.year, s.month, s.day);
    OutsideRefused(s);
  }

  lemma RenderLength(s: Stamp)
    requires Written(s)
    ensures |Render(s)| <= 29
  {
  }
}
