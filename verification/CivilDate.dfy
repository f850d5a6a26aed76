/** Day counts of the proleptic Gregorian calendar, and the two readers of UTC instants. */
module CivilDate {
  import opened Wrappers
  import opened Trimming

  /** Division that truncates toward zero. */
  function TruncDiv(a: int, b: int): int
    requires b > 0
  {
    if a >= 0 then a / b else -((-a) / b)
  }

  function DaysFromCivil(year: int, m: int, d: int): int
  {
    var y := if m <= 2 then year - 1 else year;
    var era := TruncDiv(if y >= 0 then y else y - 399, 400);
    var yoe := y - era * 400;
    var doy := TruncDiv(153 * (if m > 2 then m - 3 else m + 9) + 2, 5) + d - 1;
    var doe := yoe * 365 + TruncDiv(yoe, 4) - TruncDiv(yoe, 100) + doy;
    era * 146097 + doe - 719468
  }

  // ---------------------------------------------------------------------------------
  // The calendar
  // ---------------------------------------------------------------------------------

  predicate Leap(y: int)
  {
    y % 4 == 0 && (y % 100 != 0 || y % 400 == 0)
  }

  function DaysInMonth(y: int, m: int): int
  {
    if m == 2 then (if Leap(y) then 29 else 28)
    else if m == 4 || m == 6 || m == 9 || m == 11 then 30
    else 31
  }

  function DaysInYear(y: int): int
  {
    if Leap(y) then 366 else 365
  }

  datatype Date = Date(y: int, m: int, d: int)

  predicate ValidDate(t: Date)
  {
    1 <= t.m <= 12 && 1 <= t.d <= DaysInMonth(t.y, t.m)
  }

  function NextDay(t: Date): Date
  {
    if t.d < DaysInMonth(t.y, t.m) then Date(t.y, t.m, t.d + 1)
    else if t.m < 12 then Date(t.y, t.m + 1, 1)
    else Date(t.y + 1, 1, 1)
  }

  /** Days from the first day of 1970 to the first day of y, year by year. */
  function YearOffset(y: int): int
    decreases if y >= 1970 then y - 1970 else 1970 - y
  {
    if y > 1970 then YearOffset(y - 1) + DaysInYear(y - 1)
    else if y < 1970 then YearOffset(y + 1) - DaysInYear(y)
    else 0
  }

  /** Days of year y before month m, month by month. */
  function MonthOffset(y: int, m: int): int
    decreases m
  {
    if m <= 1 then 0 else MonthOffset(y, m - 1) + DaysInMonth(y, m - 1)
  }

  function TrueDays(t: Date): int
  {
    YearOffset(t.y) + MonthOffset(t.y, t.m) + t.d - 1
  }

  // ---------------------------------------------------------------------------------
  // The day count is the true one
  // ---------------------------------------------------------------------------------

  /** Days before the first of March of year y. */
  function MarchOffset(y: int): int
  {
    365 * y + y / 4 - y / 100 + y / 400 - 719468
  }

  lemma EraIsFloor(y: int)
    ensures TruncDiv(if y >= 0 then y else y - 399, 400) == y / 400
  {
    var q, r := y / 400, y % 400;
    assert y == 400 * q + r && 0 <= r < 400;
    if y < 0 { assert 399 - y == 400 * (-q) + (399 - r); }
  }

  lemma ClosedForm(year: int, m: int, d: int)
    requires 1 <= m <= 12
    ensures DaysFromCivil(year, m, d) ==
      MarchOffset(if m <= 2 then year - 1 else year) + (153 * (if m > 2 then m - 3 else m + 9) + 2) / 5 + d - 1
  {
    var y := if m <= 2 then year - 1 else year;
    EraIsFloor(y);
    var era := y / 400;
    var yoe := y - era * 400;
    assert 0 <= yoe < 400;
    assert y / 4 == 100 * era + yoe / 4;
    assert y / 100 == 4 * era + yoe / 100;
  }

  function One(b: bool): int
  {
    if b then 1 else 0
  }

  lemma FloorStep4(y: int)
    ensures y / 4 - (y - 1) / 4 == One(y % 4 == 0)
  {
  }

  lemma FloorStep100(y: int)
    ensures y / 100 - (y - 1) / 100 == One(y % 100 == 0)
  {
  }

  lemma FloorStep400(y: int)
    ensures y / 400 - (y - 1) / 400 == One(y % 400 == 0)
  {
  }

  lemma Centuries(y: int)
    requires y % 400 == 0
    ensures y % 100 == 0
  {
    assert y == 100 * (4 * (y / 400));
  }

  lemma CenturiesByFour(y: int)
    requires y % 100 == 0
    ensures y % 4 == 0
  {
    assert y == 4 * (25 * (y / 100));
  }

  lemma LeapByCount(y: int)
    ensures One(Leap(y)) == One(y % 4 == 0) - One(y % 100 == 0) + One(y % 400 == 0)
  {
    if y % 400 == 0 { Centuries(y); }
    if y % 100 == 0 { CenturiesByFour(y); }
  }

  lemma MarchStep(y: int)
    ensures MarchOffset(y) == MarchOffset(y - 1) + DaysInYear(y)
  {
    FloorStep4(y);
    FloorStep100(y);
    FloorStep400(y);
    LeapByCount(y);
    assert DaysInYear(y) == 365 + One(Leap(y));
  }

  lemma MonthStarts(y: int, m: int)
    requires 1 <= m <= 12
    ensures MonthOffset(y, m) + 306 ==
      if m <= 2 then (153 * (m + 9) + 2) / 5 else 306 + (if Leap(y) then 60 else 59) + (153 * (m - 3) + 2) / 5
  {
    assert MonthOffset(y, 1) == 0;
    assert MonthOffset(y, 2) == 31;
    assert MonthOffset(y, 3) == if Leap(y) then 60 else 59;
    var march := MonthOffset(y, 3);
    assert MonthOffset(y, 4) == march + 31;
    assert MonthOffset(y, 5) == march + 61;
    assert MonthOffset(y, 6) == march + 92;
    assert MonthOffset(y, 7) == march + 122;
    assert MonthOffset(y, 8) == march + 153;
    assert MonthOffset(y, 9) == march + 184;
    assert MonthOffset(y, 10) == march + 214;
    assert MonthOffset(y, 11) == march + 245;
    assert MonthOffset(y, 12) == march + 275;
  }

  lemma {:induction false} YearStarts(y: int)
    ensures YearOffset(y) == MarchOffset(y - 1) + 306
    decreases if y >= 1970 then y - 1970 else 1970 - y
  {
    if y > 1970 {
      YearStarts(y - 1);
      MarchStep(y - 1);
    } else if y < 1970 {
      YearStarts(y + 1);
      MarchStep(y);
    }
  }

  /** For every valid date, days_from_civil counts the days since 1970-01-01. */
  lemma DaysAreTrue(t: Date)
    requires 1 <= t.m <= 12
    ensures DaysFromCivil(t.y, t.m, t.d) == TrueDays(t)
  {
    ClosedForm(t.y, t.m, t.d);
    YearStarts(t.y);
    MonthStarts(t.y, t.m);
    MarchStep(t.y);
  }

  lemma YearOffsetStep(y: int)
    ensures YearOffset(y + 1) == YearOffset(y) + DaysInYear(y)
  {
  }

  lemma MonthsOfYear(y: int)
    ensures MonthOffset(y, 12) + DaysInMonth(y, 12) == DaysInYear(y)
  {
    MonthStarts(y, 12);
  }

  lemma NextDayIsValid(t: Date)
    requires ValidDate(t)
    ensures ValidDate(NextDay(t)) && TrueDays(NextDay(t)) == TrueDays(t) + 1
  {
    if t.m == 12 {
      YearOffsetStep(t.y);
      MonthsOfYear(t.y);
    }
  }

  /** The day after a valid date counts one more, and the count starts at 1970-01-01. */
  lemma NextDayCountsOne(t: Date)
    requires ValidDate(t)
    ensures var n := NextDay(t);
      ValidDate(n) && DaysFromCivil(n.y, n.m, n.d) == DaysFromCivil(t.y, t.m, t.d) + 1
    ensures DaysFromCivil(1970, 1, 1) == 0
  {
    NextDayIsValid(t);
    DaysAreTrue(t);
    DaysAreTrue(NextDay(t));
    DaysAreTrue(Date(1970, 1, 1));
  }

  predicate DateBefore(a: Date, b: Date)
  {
    a.y < b.y || (a.y == b.y && (a.m < b.m || (a.m == b.m && a.d < b.d)))
  }

  lemma {:induction false} YearOffsetGrows(a: int, b: int)
    requires a <= b
    ensures YearOffset(a) <= YearOffset(b)
    decreases b - a
  {
    if a == b {
    } else {
      YearOffsetGrows(a, b - 1);
      YearOffsetStep(b - 1);
    }
  }

  lemma {:induction false} MonthOffsetGrows(y: int, a: int, b: int)
    requires 1 <= a <= b
    ensures MonthOffset(y, a) <= MonthOffset(y, b)
    decreases b - a
  {
    if a == b {
    } else {
      MonthOffsetGrows(y, a, b - 1);
    }
  }

  lemma WithinYear(t: Date)
    requires ValidDate(t)
    ensures YearOffset(t.y) <= TrueDays(t) < YearOffset(t.y + 1)
  {
    YearOffsetStep(t.y);
    MonthsOfYear(t.y);
    MonthOffsetGrows(t.y, 1, t.m);
    MonthOffsetGrows(t.y, t.m, 12);
    if t.m < 12 { MonthOffsetGrows(t.y, t.m + 1, 12); }
  }

  lemma LaterDateCountsMore(a: Date, b: Date)
    requires ValidDate(a) && ValidDate(b) && DateBefore(a, b)
    ensures TrueDays(a) < TrueDays(b)
  {
    if a.y < b.y {
      WithinYear(a);
      WithinYear(b);
      YearOffsetGrows(a.y + 1, b.y);
    } else if a.m < b.m {
      MonthOffsetGrows(a.y, a.m + 1, b.m);
    }
  }

  /** The day count orders dates as the calendar does. */
  lemma DaysFollowTheCalendar(a: Date, b: Date)
    requires ValidDate(a) && ValidDate(b)
    ensures DateBefore(a, b) <==> DaysFromCivil(a.y, a.m, a.d) < DaysFromCivil(b.y, b.m, b.d)
  {
    DaysAreTrue(a);
    DaysAreTrue(b);
    if DateBefore(a, b) { LaterDateCountsMore(a, b); }
    if DateBefore(b, a) { LaterDateCountsMore(b, a); }
  }

  // ---------------------------------------------------------------------------------
  // Instants
  // ---------------------------------------------------------------------------------

  predicate IsDigit(c: char)
  {
    '0' <= c <= '9'
  }

  /** The value of a string of digits. */
  function Digits(s: string): Option<int>
  {
    if s == [] then Some(0)
    else
      var c, front := s[|s| - 1], Digits(s[..|s| - 1]);
      if front.Some? && IsDigit(c) then Some(10 * front.value + (c - '0') as int) else None
  }

  /** A decimal number with an optional sign. */
  function ParseInt(s: string): Option<int>
  {
    if s == [] || s == "+" || s == "-" then None
    else if s[0] == '+' then Digits(s[1..])
    else if s[0] == '-' then
      var v := Digits(s[1..]);
      if v.Some? then Some(-v.value) else None
    else Digits(s)
  }

  function ParseInstant(s: string): Option<int>
  {
    ParseTrimmed(TrimStart(TrimEnd(s)))
  }

  function ParseTrimmed(s: string): Option<int>
  {
    if |s| < 19 || s[4] != '-' || s[7] != '-' || s[10] != 'T' then None
    else
      InstantOf(ParseInt(s[0..4]), ParseInt(s[5..7]), ParseInt(s[8..10]),
                ParseInt(s[11..13]), ParseInt(s[14..16]), ParseInt(s[17..19]))
  }

  function InstantOf(
      year: Option<int>, month: Option<int>, day: Option<int>,
      hour: Option<int>, min: Option<int>, sec: Option<int>): Option<int>
  {
    if year.None? || month.None? || day.None? || hour.None? || min.None? || sec.None? then None
    else Some(DaysFromCivil(year.value, month.value, day.value) * 86400 +
              hour.value * 3600 + min.value * 60 + sec.value)
  }

  function OrZero(n: Option<int>): int
  {
    if n.Some? then n.value else 0
  }

  /** The other reader's arithmetic: no time before 1970. */
  function UnixOf(y: int, mo: int, d: int, h: int, mi: int, se: int): int
  {
    var yy := if mo <= 2 then y - 1 else y;
    var era := TruncDiv(if yy >= 0 then yy else yy - 399, 400);
    var yoe := yy - era * 400;
    var doy := TruncDiv(153 * (if mo > 2 then mo - 3 else mo + 9) + 2, 5) + d - 1;
    var doe := yoe * 365 + TruncDiv(yoe, 4) - TruncDiv(yoe, 100) + doy;
    var days := era * 146097 + doe - 719468;
    var t := days * 86400 + h * 3600 + mi * 60 + se;
    if t >= 0 then t else 0
  }

  /** The other reader: no trimming, and a field that fails is zero. */
  function InstantToUnix(s: string): int
  {
    if |s| < 19 || s[4] != '-' || s[10] != 'T' then 0
    else
      UnixOf(OrZero(ParseInt(s[0..4])), OrZero(ParseInt(s[5..7])), OrZero(ParseInt(s[8..10])),
             OrZero(ParseInt(s[11..13])), OrZero(ParseInt(s[14..16])), OrZero(ParseInt(s[17..19])))
  }

  datatype Instant = Instant(date: Date, hour: int, min: int, sec: int)

  predicate ValidInstant(i: Instant)
  {
    ValidDate(i.date) && 0 <= i.date.y <= 9999 && 0 <= i.hour < 24 && 0 <= i.min < 60 && 0 <= i.sec < 60
  }

  /** Seconds since the start of 1970. */
  function Seconds(i: Instant): int
  {
    TrueDays(i.date) * 86400 + i.hour * 3600 + i.min * 60 + i.sec
  }

  predicate InstantBefore(a: Instant, b: Instant)
  {
    DateBefore(a.date, b.date) ||
    (a.date == b.date &&
     (a.hour < b.hour || (a.hour == b.hour && (a.min < b.min || (a.min == b.min && a.sec < b.sec)))))
  }

  lemma LaterInstantCountsMore(a: Instant, b: Instant)
    requires ValidInstant(a) && ValidInstant(b) && InstantBefore(a, b)
    ensures Seconds(a) < Seconds(b)
  {
    if DateBefore(a.date, b.date) { LaterDateCountsMore(a.date, b.date); }
  }

  function Digit(n: int): char
    requires 0 <= n < 10
  {
    '0' + n as char
  }

  function Two(n: int): string
    requires 0 <= n < 100
  {
    [Digit(n / 10), Digit(n % 10)]
  }

  function Four(n: int): string
    requires 0 <= n < 10000
  {
    Two(n / 100) + Two(n % 100)
  }

  /** s is a written form of the instant; what follows the seconds is not read. */
  predicate Writes(s: string, i: Instant)
    requires ValidInstant(i)
  {
    |s| >= 19 && s[0..4] == Four(i.date.y) && s[4] == '-' && s[5..7] == Two(i.date.m) && s[7] == '-' &&
    s[8..10] == Two(i.date.d) && s[10] == 'T' && s[11..13] == Two(i.hour) && s[13] == ':' &&
    s[14..16] == Two(i.min) && s[16] == ':' && s[17..19] == Two(i.sec) && !IsSpace(s[|s| - 1])
  }

  lemma ReadsDigit(s: string, n: int)
    requires 0 <= n < 10
    ensures Digits(s + [Digit(n)]) == if Digits(s).None? then None else Some(10 * Digits(s).value + n)
  {
    assert (s + [Digit(n)])[..|s|] == s;
  }

  lemma ReadsPair(s: string, a: int, b: int)
    requires 0 <= a < 10 && 0 <= b < 10
    ensures Digits(s + [Digit(a), Digit(b)]) ==
      if Digits(s).None? then None else Some(100 * Digits(s).value + 10 * a + b)
  {
    ReadsDigit(s, a);
    ReadsDigit(s + [Digit(a)], b);
    assert s + [Digit(a), Digit(b)] == s + [Digit(a)] + [Digit(b)];
  }

  lemma ReadsTwo(n: int)
    requires 0 <= n < 100
    ensures ParseInt(Two(n)) == Some(n)
  {
    ReadsPair([], n / 10, n % 10);
    assert [] + Two(n) == Two(n);
  }

  lemma ReadsTwoTwo(hi: int, lo: int)
    requires 0 <= hi < 100 && 0 <= lo < 100
    ensures ParseInt(Two(hi) + Two(lo)) == Some(100 * hi + lo)
  {
    ReadsTwo(hi);
    ReadsPair(Two(hi), lo / 10, lo % 10);
  }

  lemma ReadsFour(n: int)
    requires 0 <= n < 10000
    ensures ParseInt(Four(n)) == Some(n)
  {
    ReadsTwoTwo(n / 100, n % 100);
  }

  /** A well-formed instant is read as its seconds since the start of 1970. */
  lemma ReadsInstant(s: string, i: Instant)
    requires ValidInstant(i) && Writes(s, i)
    ensures ParseInstant(s) == Some(Seconds(i))
  {
    assert s[0] == s[0..4][0] == Four(i.date.y)[0];
    ReadsTrimmed(s, i);
  }

  lemma ReadsTrimmed(s: string, i: Instant)
    requires ValidInstant(i) && Writes(s, i)
    ensures ParseTrimmed(s) == Some(Seconds(i))
  {
    ReadsFour(i.date.y);
    ReadsTwo(i.date.m);
    ReadsTwo(i.date.d);
    ReadsTwo(i.hour);
    ReadsTwo(i.min);
    ReadsTwo(i.sec);
    FieldsAreSeconds(i);
  }

  lemma FieldsAreSeconds(i: Instant)
    requires ValidInstant(i)
    ensures InstantOf(Some(i.date.y), Some(i.date.m), Some(i.date.d), Some(i.hour), Some(i.min), Some(i.sec)) ==
      Some(Seconds(i))
  {
    DaysAreTrue(i.date);
  }

  /** Digits, with or without a sign. */
  predicate IsNumber(f: string)
  {
    var k := if f != [] && (f[0] == '+' || f[0] == '-') then 1 else 0;
    |f| > k && forall i :: k <= i < |f| ==> IsDigit(f[i])
  }

  lemma {:induction false} DigitsExactly(s: string)
    ensures Digits(s).Some? <==> forall i :: 0 <= i < |s| ==> IsDigit(s[i])
  {
    if s == [] {
    } else {
      var front := s[..|s| - 1];
      DigitsExactly(front);
      assert forall i :: 0 <= i < |front| ==> front[i] == s[i];
    }
  }

  lemma NumberExactly(f: string)
    ensures ParseInt(f).Some? <==> IsNumber(f)
  {
    DigitsExactly(f);
    if f != [] {
      DigitsExactly(f[1..]);
      assert forall i :: 1 <= i < |f| ==> f[i] == f[1..][i - 1];
    }
  }

  /** What the first reader accepts, whatever white space is around it: dashes and a T in their
    * places and six numbers; neither the colons nor what follows the seconds is looked at. */
  lemma AcceptsExactly(lead: string, s: string, trail: string)
    requires AllSpaces(lead) && AllSpaces(trail) && s != [] && !IsSpace(s[0]) && !IsSpace(s[|s| - 1])
    ensures ParseInstant(lead + s + trail).Some? <==>
      |s| >= 19 && s[4] == '-' && s[7] == '-' && s[10] == 'T' && IsNumber(s[0..4]) && IsNumber(s[5..7]) &&
      IsNumber(s[8..10]) && IsNumber(s[11..13]) && IsNumber(s[14..16]) && IsNumber(s[17..19])
  {
    TrimDrops(lead, s, trail);
    if |s| >= 19 {
      NumberExactly(s[0..4]);
      NumberExactly(s[5..7]);
      NumberExactly(s[8..10]);
      NumberExactly(s[11..13]);
      NumberExactly(s[14..16]);
      NumberExactly(s[17..19]);
    }
  }

  /** Instants are read in chronological order. */
  lemma InstantsAreOrdered(s: string, a: Instant, t: string, b: Instant)
    requires ValidInstant(a) && ValidInstant(b) && Writes(s, a) && Writes(t, b)
    ensures ParseInstant(s).Some? && ParseInstant(t).Some?
    ensures InstantBefore(a, b) <==> ParseInstant(s).value < ParseInstant(t).value
  {
    ReadsInstant(s, a);
    ReadsInstant(t, b);
    if InstantBefore(a, b) { LaterInstantCountsMore(a, b); }
    if InstantBefore(b, a) { LaterInstantCountsMore(b, a); }
  }

  lemma UnixOfIsSeconds(y: int, mo: int, d: int, h: int, mi: int, se: int)
    ensures var t := DaysFromCivil(y, mo, d) * 86400 + h * 3600 + mi * 60 + se;
      UnixOf(y, mo, d, h, mi, se) == if t >= 0 then t else 0
  {
  }

  /** Whatever the first reader accepts without trimming, the second reads alike, from 1970 on. */
  lemma ReadersAgree(s: string)
    requires TrimStart(TrimEnd(s)) == s && ParseInstant(s).Some?
    ensures InstantToUnix(s) == if ParseInstant(s).value >= 0 then ParseInstant(s).value else 0
  {
    UnixOfIsSeconds(
      ParseInt(s[0..4]).value, ParseInt(s[5..7]).value, ParseInt(s[8..10]).value,
      ParseInt(s[11..13]).value, ParseInt(s[14..16]).value, ParseInt(s[17..19]).value);
  }

  lemma SinceTheEpoch(i: Instant)
    requires ValidInstant(i)
    ensures Seconds(i) >= 0 <==> i.date.y >= 1970
  {
    WithinYear(i.date);
    if i.date.y >= 1970 {
      YearOffsetGrows(1970, i.date.y);
    } else {
      YearOffsetGrows(i.date.y + 1, 1970);
    }
  }

  /** The second reader gives the seconds of a well-formed instant, and zero before 1970. */
  lemma ReadsUnix(s: string, i: Instant)
    requires ValidInstant(i) && Writes(s, i)
    ensures InstantToUnix(s) == if i.date.y >= 1970 then Seconds(i) else 0
  {
    ReadsInstant(s, i);
    assert s[0] == s[0..4][0] == Four(i.date.y)[0];
    ReadersAgree(s);
    SinceTheEpoch(i);
  }
}
