/** Timestamps unit by unit: which texts are accepted, which moment they denote, and which text they become. */
module TimestampText {
  import opened Strings
  import opened Calendar
  import opened Timestamp

  // ------------------------------------------------------------ day numbers

  predicate LeapInFull(y: int) {
    y % 4 == 0 && (y % 100 != 0 || y % 400 == 0)
  }

  function DaysOf(y: int, m: int): int {
    if m == 2 then (if LeapInFull(y) then 29 else 28)
    else if m == 4 || m == 6 || m == 9 || m == 11 then 30
    else 31
  }

  /** The days from the start of 1970 to the start of a year, counted year by year. */
  function DaysToYear(y: int): int
    requires y >= 1970
    decreases y
  {
    if y == 1970 then 0 else DaysToYear(y - 1) + if LeapInFull(y - 1) then 366 else 365
  }

  /** The days from the start of a year to the start of a month, counted month by month. */
  function DaysToMonth(y: int, m: int): int
    requires 1 <= m
    decreases m
  {
    if m == 1 then 0 else DaysToMonth(y, m - 1) + DaysOf(y, m - 1)
  }

  function DayNumber(y: int, m: int, d: int): int
    requires y >= 1970 && 1 <= m
  {
    DaysToYear(y) + DaysToMonth(y, m) + d - 1
  }

  lemma {:induction false} YearCounted(y: int)
    requires y >= 1970
    ensures DaysToYear(y) == DayFromYear(y)
    decreases y
  {
    hide DayFromYear, LeapInFull, InLeapYear;
    if y == 1970 {
      EpochStart();
    } else {
      YearCounted(y - 1);
      YearLength(y - 1);
      LeapAlike(y - 1);
    }
  }

  lemma LeapAlike(y: int)
    ensures LeapInFull(y) <==> InLeapYear(y)
  {
    Multiples(y);
  }

  lemma EpochStart()
    ensures DayFromYear(1970) == 0
  {
  }

  lemma {:induction false} MonthCounted(y: int, m: int)
    requires 1 <= m <= 12
    ensures DaysToMonth(y, m) == MonthStart(m, InLeapYear(y))
    decreases m
  {
    hide InLeapYear;
    if m == 1 {
    } else {
      MonthCounted(y, m - 1);
      MonthLength(y, m - 1);
      SameDays(y, m - 1);
    }
  }

  lemma SameDays(y: int, m: int)
    requires 1 <= m <= 12
    ensures DaysInMonth(y, m) == DaysOf(y, m)
  {
    hide LeapInFull, InLeapYear;
    LeapAlike(y);
  }

  lemma DayCounted(y: int, m: int, d: int)
    requires y >= 1970 && 1 <= m <= 12
    ensures MakeDay(y, m, d) == DayNumber(y, m, d)
  {
    hide DaysToYear, DaysToMonth, DayFromYear, InLeapYear;
    YearCounted(y);
    MonthCounted(y, m);
  }

  // ------------------------------------------------------------------- shape

  /** Section 5.6 of RFC 3339: digits and punctuation of date and time at their places. */
  predicate DateTimeInFull(t: Text) {
    && |t| >= 19
    && AllDigits(t[0..4]) && t[4] == 45 && AllDigits(t[5..7]) && t[7] == 45 && AllDigits(t[8..10]) && t[10] == 84
    && AllDigits(t[11..13]) && t[13] == 58 && AllDigits(t[14..16]) && t[16] == 58 && AllDigits(t[17..19])
  }

  predicate ZoneInFull(z: Text) {
    || z == [90]
    || (|z| == 6 && (z[0] == 43 || z[0] == 45) && AllDigits(z[1..3]) && z[3] == 58 && AllDigits(z[4..6]))
  }

  /** A text is date and time, up to three digits after a dot, and the zone. */
  predicate Shaped(t: Text, fraction: Text, zone: Text) {
    && DateTimeInFull(t) && AllDigits(fraction) && |fraction| <= 3 && ZoneInFull(zone)
    && t[19..] == (if fraction == [] then [] else [46] + fraction) + zone
  }

  lemma TwoDigits(t: Text, i: nat)
    requires i + 2 <= |t|
    ensures DigitsAt(t, i) <==> AllDigits(t[i..i + 2])
    ensures DigitsAt(t, i) ==> ReadTwo(t, i) == ReadDecimal(t[i..i + 2])
  {
    var s := t[i..i + 2];
    assert s[0] == t[i] && s[1] == t[i + 1];
    if DigitsAt(t, i) {
      assert s[..1] == [s[0]] && [s[0]][..0] == [];
      assert ReadDecimal([s[0]]) == s[0] - ZERO by {
        assert [s[0]][..|[s[0]]| - 1] == [];
      }
    }
  }

  lemma FourDigits(t: Text)
    requires |t| >= 4
    ensures DigitsAt(t, 0) && DigitsAt(t, 2) <==> AllDigits(t[0..4])
    ensures AllDigits(t[0..4]) ==> 100 * ReadTwo(t, 0) + ReadTwo(t, 2) == ReadDecimal(t[0..4])
  {
    var s := t[0..4];
    assert s[0] == t[0] && s[1] == t[1] && s[2] == t[2] && s[3] == t[3];
    if AllDigits(s) {
      TwoDigits(t, 0);
      assert s[..|s| - 1] == t[0..3] && t[0..3][..|t[0..3]| - 1] == t[0..2];
      assert ReadDecimal(t[0..3]) == 10 * ReadDecimal(t[0..2]) + (t[2] - ZERO);
      assert ReadDecimal(s) == 10 * ReadDecimal(t[0..3]) + (t[3] - ZERO);
    }
  }

  lemma DateTimeExactly(t: Text)
    ensures DateShaped(t) <==> DateTimeInFull(t)
    ensures DateShaped(t) ==> |t| >= 19
  {
    hide DigitsAt, AllDigits;
    if |t| >= 19 {
      FourDigits(t);
      TwoDigits(t, 5);
      TwoDigits(t, 8);
      TwoDigits(t, 11);
      TwoDigits(t, 14);
      TwoDigits(t, 17);
    }
  }

  /** The zone's parts. */
  function ZoneOf(z: Text): Zone
    requires ZoneInFull(z)
  {
    if z == [90] then Zulu else Offset(z[0] == 45, ReadDecimal(z[1..3]), ReadDecimal(z[4..6]))
  }

  lemma ZoneExactly(z: Text)
    ensures MatchZone(z).Some? <==> ZoneInFull(z)
    ensures ZoneInFull(z) ==> MatchZone(z) == Some(ZoneOf(z)) && z != [] && !IsDigit(z[0]) && z[0] != DOT
  {
    hide DigitsAt, AllDigits, ReadTwo, ReadDecimal;
    if |z| == 6 {
      TwoDigits(z, 1);
      TwoDigits(z, 4);
    }
  }

  /** The stamp of a text of the right shape, its numbers read at their places. */
  function StampIn(t: Text, fraction: Text, zone: Text): Stamp
    requires Shaped(t, fraction, zone)
  {
    Stamp(ReadDecimal(t[0..4]), ReadDecimal(t[5..7]), ReadDecimal(t[8..10]), ReadDecimal(t[11..13]),
          ReadDecimal(t[14..16]), ReadDecimal(t[17..19]), fraction, ZoneOf(zone))
  }

  lemma TailMatches(tail: Text, fraction: Text, zone: Text)
    requires AllDigits(fraction) && |fraction| <= 3 && ZoneInFull(zone)
    requires tail == (if fraction == [] then [] else [46] + fraction) + zone
    ensures MatchTail(tail) == Some((fraction, ZoneOf(zone)))
  {
    hide ZoneInFull, MatchZone, ZoneOf;
    ZoneExactly(zone);
    if fraction == [] {
      assert tail == zone;
    } else {
      assert tail[1..] == fraction + zone;
      DigitRunIs(fraction, zone);
      assert tail[1 + |fraction|..] == zone && tail[1..1 + |fraction|] == fraction;
    }
  }

  lemma TailSplits(tail: Text) returns (fraction: Text, zone: Text)
    requires MatchTail(tail).Some?
    ensures AllDigits(fraction) && |fraction| <= 3 && ZoneInFull(zone)
    ensures tail == (if fraction == [] then [] else [46] + fraction) + zone
  {
    hide ZoneInFull, MatchZone;
    if tail != [] && tail[0] == DOT {
      var k := DigitRun(tail[1..]);
      fraction, zone := tail[1..1 + k], tail[1 + k..];
      assert fraction == tail[1..][..k];
      assert tail == [tail[0]] + fraction + zone;
    } else {
      fraction, zone := [], tail;
      assert [] + zone == tail;
    }
    ZoneExactly(zone);
  }

  /** A text matches exactly when it has the shape, with the numbers at their places. */
  lemma MatchInFull(t: Text)
    ensures Match(t).Some? <==> exists fraction, zone :: Shaped(t, fraction, zone)
    ensures forall fraction, zone :: Shaped(t, fraction, zone) ==> Match(t) == Some(StampIn(t, fraction, zone))
  {
    hide DateShaped, DateTimeInFull, ZoneInFull, MatchTail, AllDigits, ZoneOf, ReadDecimal;
    DateTimeExactly(t);
    forall fraction, zone | Shaped(t, fraction, zone) ensures Match(t) == Some(StampIn(t, fraction, zone)) {
      TailMatches(t[19..], fraction, zone);
      NumbersRead(t);
    }
    if Match(t).Some? {
      var fraction, zone := TailSplits(t[19..]);
      assert Shaped(t, fraction, zone);
    }
  }

  lemma NumbersRead(t: Text)
    requires DateTimeInFull(t)
    ensures DateShaped(t)
    ensures 100 * ReadTwo(t, 0) + ReadTwo(t, 2) == ReadDecimal(t[0..4]) && ReadTwo(t, 5) == ReadDecimal(t[5..7])
    ensures ReadTwo(t, 8) == ReadDecimal(t[8..10]) && ReadTwo(t, 11) == ReadDecimal(t[11..13])
    ensures ReadTwo(t, 14) == ReadDecimal(t[14..16]) && ReadTwo(t, 17) == ReadDecimal(t[17..19])
  {
    hide ReadTwo, ReadDecimal, AllDigits;
    DateTimeExactly(t);
    FourDigits(t);
    TwoDigits(t, 5);
    TwoDigits(t, 8);
    TwoDigits(t, 11);
    TwoDigits(t, 14);
    TwoDigits(t, 17);
  }

  // -------------------------------------------------------------- acceptance

  /** The date exists, the time is before 24:00:00 and the offset is below a day and known. */
  predicate PossibleMoment(t: Text, zone: Text)
    requires DateTimeInFull(t) && ZoneInFull(zone)
  {
    var y, m, d := ReadDecimal(t[0..4]), ReadDecimal(t[5..7]), ReadDecimal(t[8..10]);
    && 1970 <= y && 1 <= m <= 12 && 1 <= d <= DaysOf(y, m)
    && ReadDecimal(t[11..13]) <= 23 && ReadDecimal(t[14..16]) <= 59 && ReadDecimal(t[17..19]) <= 59
    && (zone == [90] || (ReadDecimal(zone[1..3]) <= 23 && ReadDecimal(zone[4..6]) <= 59 && zone != Lit("-00:00")))
  }

  lemma UnknownOffset(zone: Text)
    requires ZoneInFull(zone)
    ensures ZoneOf(zone) == Offset(true, 0, 0) <==> zone == Lit("-00:00")
  {
    assert Lit("-00:00") == [45, 48, 48, 58, 48, 48];
    if zone != [90] {
      ZeroDigits(zone[1..3]);
      ZeroDigits(zone[4..6]);
      assert zone == [zone[0]] + zone[1..3] + [zone[3]] + zone[4..6];
    }
  }

  lemma ZeroDigits(t: Text)
    requires AllDigits(t) && |t| == 2
    ensures ReadDecimal(t) == 0 <==> t == [48, 48]
  {
    assert t == [t[0], t[1]] && t[..1] == [t[0]] && [t[0]][..|[t[0]]| - 1] == [];
    assert ReadDecimal([t[0]]) == t[0] - ZERO;
  }

  /** Main result: the accepted texts. */
  lemma AcceptedInFull(t: Text)
    ensures Normalise(t).Some? <==> exists fraction, zone :: Shaped(t, fraction, zone) && PossibleMoment(t, zone)
  {
    hide Match, DateTimeInFull, ZoneInFull, StampIn, Accepted, PossibleMoment, Iso, Instant, RealMoment, AllDigits;
    MatchInFull(t);
    forall fraction, zone | Shaped(t, fraction, zone)
      ensures Normalise(t).Some? <==> PossibleMoment(t, zone)
    {
      PossibleExactly(t, fraction, zone);
      ShapedLength(t, fraction, zone);
      MatchWritten(t);
      AcceptedIsReal(Match(t).value);
    }
  }

  lemma ShapedLength(t: Text, fraction: Text, zone: Text)
    requires Shaped(t, fraction, zone)
    ensures |t| <= 29
  {
  }

  lemma PossibleExactly(t: Text, fraction: Text, zone: Text)
    requires Shaped(t, fraction, zone)
    ensures RealMoment(StampIn(t, fraction, zone)) <==> PossibleMoment(t, zone)
  {
    var s := StampIn(t, fraction, zone);
    UnknownOffset(zone);
    hide ReadDecimal, AllDigits, DaysInMonth, DaysOf;
    if 1 <= s.month <= 12 {
      SameDays(s.year, s.month);
    }
  }

  // ----------------------------------------------------------------- moments

  function Milliseconds(fraction: Text): int
    requires AllDigits(fraction)
  {
    if fraction == [] then 0
    else if |fraction| == 1 then 100 * ReadDecimal(fraction)
    else if |fraction| == 2 then 10 * ReadDecimal(fraction)
    else ReadDecimal(fraction)
  }

  function OffsetMs(zone: Text): int
    requires ZoneInFull(zone)
  {
    if zone == [90] then 0
    else if zone[0] == 43 then 3_600_000 * ReadDecimal(zone[1..3]) + 60_000 * ReadDecimal(zone[4..6])
    else 0 - 3_600_000 * ReadDecimal(zone[1..3]) - 60_000 * ReadDecimal(zone[4..6])
  }

  lemma FractionRead(fraction: Text)
    requires AllDigits(fraction) && |fraction| <= 3
    ensures FractionMs(fraction) == Milliseconds(fraction)
  {
    if fraction != [] {
      DigitStep(fraction);
      DigitStep(fraction[..1]);
      if |fraction| > 1 {
        DigitStep(fraction[..2]);
        assert fraction[..2][..1] == fraction[..1];
      }
      assert |fraction| == 1 ==> fraction[..1] == fraction;
      assert |fraction| == 2 ==> fraction[..2] == fraction;
      assert fraction[..1][..0] == [];
    }
  }

  lemma DigitStep(t: Text)
    requires AllDigits(t) && t != []
    ensures ReadDecimal(t) == 10 * ReadDecimal(t[..|t| - 1]) + (t[|t| - 1] - 48)
    ensures ReadDecimal([]) == 0
  {
  }

  lemma OffsetRead(zone: Text)
    requires ZoneInFull(zone)
    ensures ZoneMs(ZoneOf(zone)) == OffsetMs(zone)
  {
    hide ReadDecimal;
  }

  /** Main result: the moment an accepted text denotes, from its digits. */
  lemma InstantInFull(t: Text, fraction: Text, zone: Text)
    requires Normalise(t).Some? && Shaped(t, fraction, zone)
    ensures ReadDecimal(t[0..4]) >= 1970 && 1 <= ReadDecimal(t[5..7])
    ensures InstantOf(t) ==
            86_400_000 * DayNumber(ReadDecimal(t[0..4]), ReadDecimal(t[5..7]), ReadDecimal(t[8..10])) +
            3_600_000 * ReadDecimal(t[11..13]) + 60_000 * ReadDecimal(t[14..16]) + 1000 * ReadDecimal(t[17..19]) +
            Milliseconds(fraction) - OffsetMs(zone)
  {
    hide Match, Iso, MakeDay, DayNumber, FractionMs, ZoneMs, Milliseconds, OffsetMs, ReadDecimal, AllDigits, ZoneInFull,
         ZoneOf, MonthOf, DateOf, DaysOf;
    MatchInFull(t);
    MatchWritten(t);
    var s := Match(t).value;
    FractionRead(fraction);
    OffsetRead(zone);
    DayCounted(s.year, s.month, s.day);
  }

  /** Main result: an offset moves the moment by its hours and minutes, back if it is ahead of UTC and on if it is
      behind. */
  lemma OffsetInFull(s: Stamp, behind: bool, hours: nat, minutes: nat)
    requires Written(s) && RealMoment(s) && s.zone == Offset(behind, hours, minutes)
    ensures Written(s.(zone := Zulu)) && Normalise(Render(s)).Some? && Normalise(Render(s.(zone := Zulu))).Some?
    ensures InstantOf(Render(s)) ==
            if behind then InstantOf(Render(s.(zone := Zulu))) + 3_600_000 * hours + 60_000 * minutes
            else InstantOf(Render(s.(zone := Zulu))) - 3_600_000 * hours - 60_000 * minutes
    ensures var ms := InstantOf(Render(s));
            0 <= ms < 86_400_000 * DaysToYear(10_000) ==>
              ms < MS_10000 && Normalise(Render(s)) == Some(Moment(ms))
  {
    hide Match, Iso, Render, YearOf, MonthOf, DateOf, MakeDay, FractionMs, DayExists, DaysToYear, DayFromYear;
    var utc := s.(zone := Zulu);
    RealIsAccepted(s);
    RealIsAccepted(utc);
    YearCounted(10_000);
  }

  lemma RealIsAccepted(s: Stamp)
    requires Written(s) && RealMoment(s)
    ensures Accepted(s) && Normalise(Render(s)).Some?
    ensures InstantOf(Render(s)) == Instant(s)
    ensures DAY_MS * DayFromYear(FIRST_YEAR) <= Instant(s) < MS_10001 && Normalise(Render(s)) == Some(Iso(Instant(s)))
  {
    hide Match, Iso, Render, RealMoment, Accepted, Instant, Written;
    AcceptedIsReal(s);
    RenderMatches(s);
    RenderLength(s);
    InstantInRange(s);
  }

  // ------------------------------------------------------------ normal forms

  /** Main result: within the years 1970 to 9999 in UTC the normal form has 24 units, three digits after the dot and
      a Z, and denotes the same moment; with `InstantInFull` that fixes its digits. */
  lemma NormalFormInFull(t: Text)
    requires Normalise(t).Some? && 0 <= InstantOf(t) < 86_400_000 * DaysToYear(10_000)
    ensures var r := Normalise(t).value;
            && |r| == 24 && Shaped(r, r[20..23], [90]) && r[19] == 46
            && Normalise(r) == Some(r) && InstantOf(r) == InstantOf(t)
  {
    hide Match, InstantOf, Shaped, DaysToYear, DayFromYear;
    YearCounted(10_000);
    NormalisationSettles(t);
    var r := Normalise(t).value;
    NormalisationKeepsInstant(t, r);
    SettledShape(r);
  }

  lemma SettledShape(r: Text)
    requires Normalise(r) == Some(r)
    ensures |r| == 24 && Shaped(r, r[20..23], [90]) && r[19] == 46
  {
    hide Shaped, Match, Render, StampOf;
    SettledInstant(r);
    MatchInFull(r);
    MatchWritten(r);
    var s := Match(r).value;
    InstantInRange(s);
    var ms := InstantOf(r);
    StampOfWritten(ms);
    IsoStamp(ms);
    ZuluShape(r, StampOf(ms));
    StampOfZone(ms);
  }

  lemma StampOfZone(ms: int)
    requires DAY_MS * DayFromYear(FIRST_YEAR) <= ms
    ensures StampOf(ms).zone == Zulu && |StampOf(ms).fraction| == 3
  {
    hide YearOf, MonthOf, DateOf;
  }

  lemma ZuluShape(r: Text, s: Stamp)
    requires |r| == 24 && Match(r) == Some(s)
    ensures s.zone == Zulu && |s.fraction| == 3 ==> Shaped(r, r[20..23], [90]) && r[19] == 46
  {
    if s.zone == Zulu && |s.fraction| == 3 {
      MatchInFull(r);
      var fraction, zone :| Shaped(r, fraction, zone);
      hide Match, AllDigits, DateTimeInFull, ReadDecimal;
      assert zone == [90];
      assert r[19..] == [46] + fraction + zone;
      assert r[20..23] == r[19..][1..4] == fraction && r[19] == r[19..][0];
    }
  }

  /** Outside those years the text has the form that is refused: the last day of 1969, or the first of 10000. */
  lemma OutsideInFull(t: Text)
    requires Normalise(t).Some? && !(0 <= InstantOf(t) < 86_400_000 * DaysToYear(10_000))
    ensures var r, ms, end := Normalise(t).value, InstantOf(t), 86_400_000 * DaysToYear(10_000);
            if ms < 0 then
              && 0 <= ms + 86_400_000 < MS_10000
              && r == Lit("1969-12-31T") + Moment(ms + 86_400_000)[11..]
            else
              && 0 <= ms - end < MS_10000
              && r == Lit("+010000-01-01T") + Moment(ms - end)[11..]
  {
    hide Match, Iso, Moment, DaysToYear, DayFromYear, StampOf, MakeDay, Accepted;
    YearCounted(10_000);
    MatchWritten(t);
    InstantInRange(Match(t).value);
    var ms := InstantOf(t);
    if ms < 0 {
      BeforeTexts(ms);
    } else {
      AfterTexts(ms);
    }
  }

  lemma TenThousand()
    ensures DayFromYear(10_000) == 2_932_897 && DayFromYear(10_001) == 2_933_263
    ensures DayFromYear(1969) == -365 && DayFromYear(1970) == 0
  {
  }

  /** The time of day of an instant, as it is printed. */
  lemma TimeOfDay(a: int, b: int)
    requires DAY_MS * DayFromYear(FIRST_YEAR) <= a && DAY_MS * DayFromYear(FIRST_YEAR) <= b && a % DAY_MS == b % DAY_MS
    ensures var x, y := StampOf(a), StampOf(b);
            x.hour == y.hour && x.minute == y.minute && x.second == y.second && x.fraction == y.fraction &&
              x.zone == y.zone
  {
    hide YearOf, MonthOf, DateOf;
  }

  lemma SameTail(x: Stamp, y: Stamp)
    requires Written(x) && Written(y)
    requires x.hour == y.hour && x.minute == y.minute && x.second == y.second && x.fraction == y.fraction &&
             x.zone == y.zone
    ensures |Render(x)| >= 11 && Render(x) == RenderDay(x) + [84] + Render(y)[11..]
  {
    hide RenderDay, RenderTime, RenderTail;
    assert RenderTime(x) == RenderTime(y) && RenderTail(x) == RenderTail(y) by {
      SameTimes(x, y);
    }
    assert Render(y)[11..] == RenderTime(y) + RenderTail(y);
  }

  lemma SameTimes(x: Stamp, y: Stamp)
    requires Written(x) && Written(y)
    requires x.hour == y.hour && x.minute == y.minute && x.second == y.second && x.fraction == y.fraction &&
             x.zone == y.zone
    ensures RenderTime(x) == RenderTime(y) && RenderTail(x) == RenderTail(y)
  {
  }

  lemma BeforeTexts(ms: int)
    requires -DAY_MS <= ms < 0
    ensures DAY_MS * DayFromYear(FIRST_YEAR) <= ms < MS_10001 && 0 <= ms + 86_400_000 < MS_10000
    ensures Iso(ms) == Lit("1969-12-31T") + Moment(ms + 86_400_000)[11..]
  {
    TenThousand();
    FirstYearStart();
    hide DayFromYear, StampOf, Render;
    StampOfWritten(ms);
    StampOfWritten(ms + 86_400_000);
    TimeOfDay(ms, ms + 86_400_000);
    LastDay(ms);
    SameTail(StampOf(ms), StampOf(ms + 86_400_000));
    LastDayText(StampOf(ms));
  }

  lemma LastDay(ms: int)
    requires -DAY_MS <= ms < 0
    ensures DAY_MS * DayFromYear(FIRST_YEAR) <= ms
    ensures StampOf(ms).year == 1969 && StampOf(ms).month == 12 && StampOf(ms).day == 31
  {
    TenThousand();
    FirstYearStart();
    DateOfDay(ms, 1969, 12, 31);
  }

  lemma DateOfDay(ms: int, y: int, m: int, d: int)
    requires y >= FIRST_YEAR && DayExists(y, m, d) && ms / DAY_MS == MakeDay(y, m, d)
    ensures DAY_MS * DayFromYear(FIRST_YEAR) <= ms
    ensures StampOf(ms).year == y && StampOf(ms).month == m && StampOf(ms).day == d
  {
    hide YearOf, MonthOf, DateOf, MakeDay, DayExists;
    CivilToDayToCivil(y, m, d);
  }

  lemma LastDayText(s: Stamp)
    requires Written(s) && s.year == 1969 && s.month == 12 && s.day == 31
    ensures RenderDay(s) + [84] == Lit("1969-12-31T")
  {
    assert Two(19) == [49, 57] && Two(69) == [54, 57] && Two(12) == [49, 50] && Two(31) == [51, 49];
  }

  lemma AfterTexts(ms: int)
    requires MS_10000 <= ms < MS_10000 + DAY_MS
    ensures DAY_MS * DayFromYear(FIRST_YEAR) <= ms < MS_10001 && 0 <= ms - MS_10000 < MS_10000
    ensures Iso(ms) == Lit("+010000-01-01T") + Moment(ms - MS_10000)[11..]
  {
    TenThousand();
    FirstYearStart();
    hide DayFromYear, StampOf, Render;
    var rest := ms - MS_10000;
    StampOfWritten(ms);
    StampOfWritten(rest);
    TimeOfDay(ms, rest);
    FirstDay(ms);
    var s := StampOf(ms).(year := 0);
    SameTail(s, StampOf(rest));
    FirstDayText(s);
  }

  lemma FirstDay(ms: int)
    requires MS_10000 <= ms < MS_10000 + DAY_MS
    ensures DAY_MS * DayFromYear(FIRST_YEAR) <= ms
    ensures StampOf(ms).year == 10_000 && StampOf(ms).month == 1 && StampOf(ms).day == 1
  {
    TenThousand();
    FirstYearStart();
    DateOfDay(ms, 10_000, 1, 1);
  }

  lemma FirstDayText(s: Stamp)
    requires Written(s) && s.year == 0 && s.month == 1 && s.day == 1
    ensures [PLUS, ZERO] + [ZERO + 1] + (RenderDay(s) + [84]) == Lit("+010000-01-01T")
  {
    assert Two(0) == [48, 48] && Two(1) == [48, 49];
  }
}
