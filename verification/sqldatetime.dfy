/** SQLite's `datetime(text)` as used in `ORDER BY datetime(data)`. It reads
    the fields of a date, a date-time or a bare time of day and renders them
    as `YYYY-MM-DD HH:MM:SS`. The time is rendered as it was read, hour 24
    included. The date is rendered as it was read when its day is at most
    28; otherwise, and for a bare time, it is the date of the Julian day the
    fields denote, so a day past the end of the month counts on into the
    next month and hour 24 adds a day. Text it cannot read, and instants
    after 9999-12-31, give NULL. The empty string stands for NULL here:
    every rendered value is 19 characters long, so the empty string sorts
    below all of them exactly as NULL does in SQLite. */
module SqlDateTime {
  import opened Wrappers
  import opened Text
  import opened Formatting
  import opened Calendar
  import opened Timestamps

  predicate IsDigit(c: char) {
    '0' <= c <= '9'
  }

  predicate AllDigits(s: string) {
    forall i :: 0 <= i < |s| ==> IsDigit(s[i])
  }

  function DigitValue(c: char): (d: nat)
    requires IsDigit(c)
    ensures d < 10
  {
    c as int - 48
  }

  /** The number a string of decimal digits denotes. */
  function Decimal(s: string): nat
    requires AllDigits(s)
    decreases |s|
  {
    if |s| == 0 then 0 else 10 * Decimal(s[..|s| - 1]) + DigitValue(s[|s| - 1])
  }

  /** Reading back a fixed-width rendering gives the number rendered. */
  lemma {:induction false} DecimalOfFixed(n: nat, w: nat)
    requires n < Pow10(w)
    ensures AllDigits(Fixed(n, w)) && Decimal(Fixed(n, w)) == n
    decreases w
  {
    if w > 0 {
      var s := Fixed(n, w);
      DecimalOfFixed(n / 10, w - 1);
      assert s[..w - 1] == Fixed(n / 10, w - 1);
      assert DigitValue(s[w - 1]) == n % 10;
    }
  }

  /** `YYYY-MM-DD` as SQLite reads it: a month in 1..12 and a day in 1..31,
      whatever the month. */
  function ReadDate(s: string): (r: Option<Date>)
    ensures r.Some? ==> r.value.year <= 9999 && 1 <= r.value.month <= 12 && 1 <= r.value.day <= 31
  {
    if |s| == 10 && s[4] == '-' && s[7] == '-' && AllDigits(s[..4]) && AllDigits(s[5..7]) && AllDigits(s[8..]) then
      DecimalBelow(s[..4]);
      Pow10Small();
      var d := Date(Decimal(s[..4]), Decimal(s[5..7]), Decimal(s[8..]));
      if 1 <= d.month <= 12 && 1 <= d.day <= 31 then Some(d) else None
    else None
  }

  /** `HH:MM` or `HH:MM:SS`: an hour in 0..24, minutes and seconds in 0..59;
      the seconds default to 0. */
  function ReadClock(s: string): (r: Option<Clock>)
    ensures r.Some? ==> ReadableClock(r.value)
  {
    if (|s| == 5 || (|s| == 8 && s[5] == ':' && AllDigits(s[6..])))
       && s[2] == ':' && AllDigits(s[..2]) && AllDigits(s[3..5]) then
      var c := Clock(Decimal(s[..2]), Decimal(s[3..5]), if |s| == 8 then Decimal(s[6..]) else 0);
      if c.hour <= 24 && c.minute <= 59 && c.second <= 59 then Some(c) else None
    else None
  }

  /** `n` digits denote a number below `10^n`. */
  lemma {:induction false} DecimalBelow(s: string)
    requires AllDigits(s)
    ensures Decimal(s) < Pow10(|s|)
    decreases |s|
  {
    if |s| > 0 {
      DecimalBelow(s[..|s| - 1]);
    }
  }

  /** A time of day as `datetime()` reads it: the hour may be 24. */
  predicate ReadableClock(c: Clock) {
    c.hour <= 24 && c.minute < 60 && c.second < 60
  }

  /** `sqlite3Isspace`: space, tab, line feed, vertical tab, form feed and
      carriage return. */
  predicate IsSpace(c: char) {
    c == ' ' || '\t' <= c <= '\r'
  }

  /** What may stand between a date and its time. */
  predicate IsSeparator(c: char) {
    IsSpace(c) || c == 'T'
  }

  /** `s` without its leading run of characters that `skip` admits. */
  function SkipWhile(s: string, skip: char -> bool): (r: string)
    ensures |r| <= |s| && r == s[|s| - |r|..]
    ensures forall i :: 0 <= i < |s| - |r| ==> skip(s[i])
    ensures |r| > 0 ==> !skip(r[0])
    decreases |s|
  {
    if |s| > 0 && skip(s[0]) then
      var r := SkipWhile(s[1..], skip);
      assert forall i :: 1 <= i < |s| - |r| ==> s[i] == s[1..][i - 1];
      r
    else s
  }

  /** Skipping a run of admitted characters lands on what follows it. */
  lemma {:induction false} SkipRun(run: string, rest: string, skip: char -> bool)
    requires forall i :: 0 <= i < |run| ==> skip(run[i])
    requires |rest| > 0 ==> !skip(rest[0])
    ensures SkipWhile(run + rest, skip) == rest
    decreases |run|
  {
    if |run| > 0 {
      assert (run + rest)[0] == run[0];
      assert (run + rest)[1..] == run[1..] + rest;
      SkipRun(run[1..], rest, skip);
    } else {
      assert run + rest == rest;
    }
  }

  /** What may follow the time: blanks, and at most one `Z` (UTC, which
      shifts nothing) among them. */
  predicate ZoneTail(t: string) {
    var u := SkipWhile(t, IsSpace);
    u == [] || ((u[0] == 'Z' || u[0] == 'z') && SkipWhile(u[1..], IsSpace) == [])
  }

  /** A time of day followed by what may follow it; after `HH:MM` a colon
      must start the seconds. */
  function ReadTime(s: string): (r: Option<Clock>)
    ensures r.Some? ==> ReadableClock(r.value)
  {
    var n := if |s| > 5 && s[5] == ':' then 8 else 5;
    if |s| < n || !ZoneTail(s[n..]) then None else ReadClock(s[..n])
  }

  /** The fields `datetime()` read; `dated` is false for a bare time. */
  datatype Fields = Fields(date: Date, clock: Clock, dated: bool)

  predicate FieldsInRange(f: Fields) {
    f.date.year <= 9999 && 1 <= f.date.month <= 12 && 1 <= f.date.day <= 31 && ReadableClock(f.clock)
  }

  /** The day SQLite gives a time of day read without a date. */
  const TimeOnlyDate := Date(2000, 1, 1)

  /** The fields `datetime(s)` reads: a date, then any run of `T`s and
      blanks, then possibly a time of day; or a time of day alone, placed on
      2000-01-01. A date followed by anything else is not read. */
  function ReadFields(s: string): (r: Option<Fields>)
    ensures r.Some? ==> FieldsInRange(r.value)
    ensures r.Some? && !r.value.dated ==> r.value.date == TimeOnlyDate
  {
    var date := if |s| >= 10 then ReadDate(s[..10]) else None;
    if date.Some? then
      var rest := SkipWhile(s[10..], IsSeparator);
      if rest == [] then Some(Fields(date.value, Midnight, true))
      else match ReadTime(rest)
        case None => None
        case Some(c) => Some(Fields(date.value, c, true))
    else match ReadTime(s)
      case None => None
      case Some(c) => Some(Fields(TimeOnlyDate, c, false))
  }

  /** The calendar day after `d`; there is none after 9999-12-31. */
  function NextDay(d: Date): (r: Option<Date>)
    requires ValidDate(d)
    ensures r.None? <==> d == Date(9999, 12, 31)
    ensures r.Some? ==> ValidDate(r.value) && DateLt(d, r.value)
  {
    if d.day < DaysInMonth(d.year, d.month) then Some(Date(d.year, d.month, d.day + 1))
    else if d.month < 12 then Some(Date(d.year, d.month + 1, 1))
    else if d.year < 9999 then Some(Date(d.year + 1, 1, 1))
    else None
  }

  /** `n` days after `d`, one day at a time. */
  function AddDays(d: Date, n: nat): (r: Option<Date>)
    requires ValidDate(d)
    ensures r.Some? ==> ValidDate(r.value)
  {
    if n == 0 then Some(d)
    else match AddDays(d, n - 1)
      case None => None
      case Some(e) => NextDay(e)
  }

  /** A day of the month past its end counts on into the next month:
      `2025-02-30` is `2025-03-02`. */
  function RollOver(d: Date): (r: Date)
    requires d.year <= 9999 && 1 <= d.month <= 12 && 1 <= d.day <= 31
    ensures ValidDate(r)
  {
    var last := DaysInMonth(d.year, d.month);
    if d.day <= last then d
    else
      var next := NextMonth(d.year, d.month);
      Date(next.0, next.1, d.day - last)
  }

  /** The rolled-over date is the first of the month plus `day - 1` days,
      which is how the Julian-day arithmetic arrives at it. */
  lemma RollOverCountsDays(d: Date)
    requires d.year <= 9999 && 1 <= d.month <= 12 && 1 <= d.day <= 31
    ensures AddDays(Date(d.year, d.month, 1), d.day - 1) == Some(RollOver(d))
  {
    CountFromFirst(d.year, d.month, d.day - 1);
  }

  lemma {:induction false} CountFromFirst(year: nat, month: nat, k: nat)
    requires year <= 9999 && 1 <= month <= 12 && k <= 30
    ensures var last := DaysInMonth(year, month);
            var next := NextMonth(year, month);
            AddDays(Date(year, month, 1), k) ==
              if k < last then Some(Date(year, month, k + 1)) else Some(Date(next.0, next.1, k - last + 1))
    decreases k
  {
    if k > 0 {
      CountFromFirst(year, month, k - 1);
    }
  }

  /** The date and time `datetime()` prints for the fields it read. The
      time is printed as read. A date given with a day up to 28 is printed
      as read; any other date, and the 2000-01-01 of a bare time, is
      recomputed from the instant, whose day is rolled over and moved one
      day on by hour 24. An instant after 9999-12-31 has no value. */
  function Normalize(f: Fields): (r: Option<(Date, Clock)>)
    requires FieldsInRange(f)
    ensures r.Some? ==> ValidDate(r.value.0) && r.value.1 == f.clock
    ensures r.None? <==> f.clock.hour == 24 && RollOver(f.date) == Date(9999, 12, 31)
    ensures r.Some? && f.dated && f.date.day <= 28 ==> r.value.0 == f.date
    ensures r.Some? && f.clock.hour < 24 ==> r.value.0 == RollOver(f.date)
  {
    var day := RollOver(f.date);
    var instant := if f.clock.hour < 24 then Some(day) else NextDay(day);
    match instant
    case None => None
    case Some(e) => Some((if f.dated && f.date.day <= 28 then f.date else e, f.clock))
  }

  /** The canonical rendering `datetime()` produces for a date and a time. */
  function Canonical(d: Date, c: Clock): (s: string)
    requires DateFits(d) && ClockFits(c)
    ensures |s| == 19
  {
    IsoDate(d) + (" " + ClockText(c))
  }

  /** `datetime(s)`, with "" for NULL: every value it yields is the
      rendering of a calendar date and a time of day, whose hour may be 24. */
  function DateTimeKey(s: string): (k: string)
    ensures k == "" || |k| == 19
    ensures k != "" ==> exists d, c :: ValidDate(d) && ReadableClock(c) && k == Canonical(d, c)
  {
    match ReadFields(s)
    case None => ""
    case Some(f) =>
      match Normalize(f)
      case None => ""
      case Some(i) => Canonical(i.0, i.1)
  }

  lemma IsoDateFields(d: Date)
    requires d.year <= 9999 && 1 <= d.month <= 12 && 1 <= d.day <= 31
    ensures ReadDate(IsoDate(d)) == Some(d)
  {
    var s := IsoDate(d);
    Pow10Small();
    assert s[..4] == Fixed(d.year, 4);
    assert s[5..7] == Fixed(d.month, 2);
    assert s[8..] == Fixed(d.day, 2);
    assert s[4] == '-' && s[7] == '-';
    DecimalOfFixed(d.year, 4);
    DecimalOfFixed(d.month, 2);
    DecimalOfFixed(d.day, 2);
  }

  lemma ClockTextFields(c: Clock)
    requires c.hour <= 24 && c.minute < 60 && c.second < 60
    ensures ReadClock(ClockText(c)) == Some(c)
  {
    var s := ClockText(c);
    Pow10Small();
    assert s[..2] == Fixed(c.hour, 2);
    assert s[3..5] == Fixed(c.minute, 2);
    assert s[6..] == Fixed(c.second, 2);
    assert s[2] == ':' && s[5] == ':';
    DecimalOfFixed(c.hour, 2);
    DecimalOfFixed(c.minute, 2);
    DecimalOfFixed(c.second, 2);
  }

  /** The `HH:MM` head of a clock text reads as that hour and minute. */
  lemma ShortClockFields(c: Clock)
    requires c.hour <= 24 && c.minute < 60 && c.second < 60
    ensures ReadClock(ClockText(c)[..5]) == Some(Clock(c.hour, c.minute, 0))
  {
    var s := ClockText(c)[..5];
    Pow10Small();
    assert s[..2] == Fixed(c.hour, 2);
    assert s[3..5] == Fixed(c.minute, 2);
    assert s[2] == ':';
    DecimalOfFixed(c.hour, 2);
    DecimalOfFixed(c.minute, 2);
  }

  /** A clock text followed by blanks, after any run of separators. */
  lemma ClockAfterRun(run: string, c: Clock, tail: string)
    requires forall i :: 0 <= i < |run| ==> IsSeparator(run[i])
    requires forall i :: 0 <= i < |tail| ==> IsSpace(tail[i])
    requires ReadableClock(c)
    ensures SkipWhile(run + (ClockText(c) + tail), IsSeparator) == ClockText(c) + tail
    ensures ReadTime(ClockText(c) + tail) == Some(c)
  {
    var t := ClockText(c);
    Pow10Small();
    DecimalOfFixed(c.hour, 2);
    assert t[0] == Fixed(c.hour, 2)[0];
    SkipRun(run, t + tail, IsSeparator);
    var s := t + tail;
    assert s[5] == ':' && s[..8] == t && s[8..] == tail;
    SkipRun(tail, [], IsSpace);
    assert tail + [] == tail;
    ClockTextFields(c);
  }

  /** A date, any run of separators (none included), a time of day and
      trailing blanks are read as that date and time. */
  lemma SeparatedFields(d: Date, run: string, c: Clock, tail: string)
    requires d.year <= 9999 && 1 <= d.month <= 12 && 1 <= d.day <= 31 && ReadableClock(c)
    requires forall i :: 0 <= i < |run| ==> IsSeparator(run[i])
    requires forall i :: 0 <= i < |tail| ==> IsSpace(tail[i])
    ensures ReadFields(IsoDate(d) + run + ClockText(c) + tail) == Some(Fields(d, c, true))
  {
    var date, rest := IsoDate(d), run + (ClockText(c) + tail);
    assert IsoDate(d) + run + ClockText(c) + tail == date + rest;
    assert (date + rest)[..10] == date && (date + rest)[10..] == rest;
    IsoDateFields(d);
    ClockAfterRun(run, c, tail);
  }

  /** A date followed only by separators is read as that date. */
  lemma DateRunFields(d: Date, run: string)
    requires d.year <= 9999 && 1 <= d.month <= 12 && 1 <= d.day <= 31
    requires forall i :: 0 <= i < |run| ==> IsSeparator(run[i])
    ensures ReadFields(IsoDate(d) + run) == Some(Fields(d, Midnight, true))
  {
    var s := IsoDate(d) + run;
    assert s[..10] == IsoDate(d) && s[10..] == run;
    SkipRun(run, [], IsSeparator);
    assert run + [] == run;
    IsoDateFields(d);
  }

  lemma DateTimeFields(d: Date, c: Clock)
    requires d.year <= 9999 && 1 <= d.month <= 12 && 1 <= d.day <= 31 && ReadableClock(c)
    ensures ReadFields(IsoDateTime(d, c)) == Some(Fields(d, c, true))
  {
    assert IsoDateTime(d, c) == IsoDate(d) + "T" + ClockText(c) + [];
    SeparatedFields(d, "T", c, []);
  }

  /** `datetime()` of a date written by the menu is that day at midnight. */
  lemma KeyOfDate(d: Date)
    requires ValidDate(d)
    ensures DateTimeKey(IsoDate(d)) == Canonical(d, Midnight)
  {
    DateRunFields(d, []);
    assert IsoDate(d) + [] == IsoDate(d);
  }

  /** A date followed only by `T`s and blanks is that day at midnight. */
  lemma KeyOfDateAndSeparators(d: Date, run: string)
    requires ValidDate(d)
    requires forall i :: 0 <= i < |run| ==> IsSeparator(run[i])
    ensures DateTimeKey(IsoDate(d) + run) == Canonical(d, Midnight)
  {
    DateRunFields(d, run);
  }

  /** `datetime()` of an `isoformat` date-time replaces the `T` by a space. */
  lemma KeyOfDateTime(d: Date, c: Clock)
    requires ValidDate(d) && ValidClock(c)
    ensures DateTimeKey(IsoDateTime(d, c)) == Canonical(d, c)
  {
    DateTimeFields(d, c);
  }

  /** Between the date and the time any run of `T`s and blanks may stand,
      none at all included, and blanks may follow the time. */
  lemma KeyOfSeparatedTime(d: Date, run: string, c: Clock, tail: string)
    requires ValidDate(d) && ValidClock(c)
    requires forall i :: 0 <= i < |run| ==> IsSeparator(run[i])
    requires forall i :: 0 <= i < |tail| ==> IsSpace(tail[i])
    ensures DateTimeKey(IsoDate(d) + run + ClockText(c) + tail) == Canonical(d, c)
  {
    SeparatedFields(d, run, c, tail);
  }

  /** A date typed with a day the month does not have, such as
      `2025-02-30`, sorts as the first of the month plus `day - 1` days:
      `2025-03-02`. */
  lemma KeyOfOverflowingDay(d: Date)
    requires d.year <= 9999 && 1 <= d.month <= 12 && DaysInMonth(d.year, d.month) < d.day <= 31
    ensures AddDays(Date(d.year, d.month, 1), d.day - 1).Some?
    ensures DateTimeKey(IsoDate(d)) == Canonical(AddDays(Date(d.year, d.month, 1), d.day - 1).value, Midnight)
  {
    DateRunFields(d, []);
    assert IsoDate(d) + [] == IsoDate(d);
    RollOverCountsDays(d);
  }

  /** Hour 24 is printed as 24. The date stays as typed when its day is at
      most 28 and becomes the next day otherwise; after 9999-12-31 there is
      no value. */
  lemma KeyOfHour24(d: Date, minute: nat, second: nat)
    requires ValidDate(d) && minute < 60 && second < 60
    ensures var key := DateTimeKey(IsoDateTime(d, Clock(24, minute, second)));
            if d == Date(9999, 12, 31) then key == ""
            else if d.day <= 28 then key == Canonical(d, Clock(24, minute, second))
            else key == Canonical(NextDay(d).value, Clock(24, minute, second))
  {
    DateTimeFields(d, Clock(24, minute, second));
  }

  /** So hour 24 of a day up to the 28th sorts before every time of the next
      day, although it denotes that day's midnight. */
  lemma Hour24SortsOnItsDay(d: Date, minute: nat, second: nat, c: Clock)
    requires ValidDate(d) && d.day <= 28 && minute < 60 && second < 60 && ValidClock(c)
    ensures NextDay(d).Some?
    ensures TextLt(DateTimeKey(IsoDateTime(d, Clock(24, minute, second))), DateTimeKey(IsoDateTime(NextDay(d).value, c)))
  {
    KeyOfHour24(d, minute, second);
    KeyOfDateTime(NextDay(d).value, c);
    CanonicalOrder(d, Clock(24, minute, second), NextDay(d).value, c);
  }

  /** Hour 24 of a day from the 29th on is printed on the next day, where it
      sorts after every time of that day. */
  lemma Hour24SortsAfterNextDay(d: Date, minute: nat, second: nat, c: Clock)
    requires ValidDate(d) && d.day > 28 && d != Date(9999, 12, 31) && minute < 60 && second < 60 && ValidClock(c)
    ensures NextDay(d).Some?
    ensures TextLt(DateTimeKey(IsoDateTime(NextDay(d).value, c)), DateTimeKey(IsoDateTime(d, Clock(24, minute, second))))
  {
    KeyOfHour24(d, minute, second);
    KeyOfDateTime(NextDay(d).value, c);
    CanonicalOrder(NextDay(d).value, c, NextDay(d).value, Clock(24, minute, second));
  }

  /** A bare `HH:MM:SS` or `HH:MM` is read as a time without a date. */
  lemma TimeOnlyFields(c: Clock)
    requires ReadableClock(c)
    ensures ReadFields(ClockText(c)) == Some(Fields(TimeOnlyDate, c, false))
    ensures ReadFields(ClockText(c)[..5]) == Some(Fields(TimeOnlyDate, Clock(c.hour, c.minute, 0), false))
  {
    ClockAfterRun([], c, []);
    assert ClockText(c) + [] == ClockText(c);
    ShortClockFields(c);
    var t := ClockText(c)[..5];
    assert t[..5] == t && t[5..] == [];
  }

  /** `datetime()` of a bare time of day, such as `10:00:00`, is that time
      on 2000-01-01. */
  lemma KeyOfClock(c: Clock)
    requires ValidClock(c)
    ensures DateTimeKey(ClockText(c)) == Canonical(TimeOnlyDate, c)
  {
    TimeOnlyFields(c);
  }

  /** `datetime()` of a bare `HH:MM` is that time on 2000-01-01. */
  lemma KeyOfShortClock(c: Clock)
    requires ValidClock(c)
    ensures DateTimeKey(ClockText(c)[..5]) == Canonical(TimeOnlyDate, Clock(c.hour, c.minute, 0))
  {
    TimeOnlyFields(c);
  }

  /** A bare time at hour 24 is printed as hour 24 of 2000-01-02. */
  lemma KeyOfBareHour24(minute: nat, second: nat)
    requires minute < 60 && second < 60
    ensures DateTimeKey(ClockText(Clock(24, minute, second))) == Canonical(Date(2000, 1, 2), Clock(24, minute, second))
  {
    TimeOnlyFields(Clock(24, minute, second));
  }

  /** Canonical renderings sort chronologically. */
  lemma CanonicalOrder(a: Date, c: Clock, b: Date, e: Clock)
    requires DateFits(a) && ClockFits(c) && DateFits(b) && ClockFits(e)
    ensures TextLt(Canonical(a, c), Canonical(b, e)) <==> DateLt(a, b) || (a == b && ClockLt(c, e))
    ensures Canonical(a, c) == Canonical(b, e) <==> a == b && c == e
  {
    IsoDateOrder(a, b);
    ClockTextOrder(c, e);
    ConcatLt(IsoDate(a), " " + ClockText(c), IsoDate(b), " " + ClockText(e));
    SeparatorLt(" ", ClockText(c), ClockText(e));
    SeparatorEq(" ", ClockText(c), ClockText(e));
    if Canonical(a, c) == Canonical(b, e) {
      assert IsoDate(a) == Canonical(a, c)[..10];
      assert IsoDate(b) == Canonical(b, e)[..10];
      assert " " + ClockText(c) == Canonical(a, c)[10..];
      assert " " + ClockText(e) == Canonical(b, e)[10..];
    }
  }

  /** Under `datetime()` a date-only entry and a midnight entry of the same
      day tie, while as raw text the date-only entry sorts first. */
  lemma DateOnlyTiesMidnight(d: Date)
    requires ValidDate(d)
    ensures DateTimeKey(IsoDate(d)) == DateTimeKey(IsoDateTime(d, Midnight))
    ensures TextLt(IsoDate(d), IsoDateTime(d, Midnight))
  {
    KeyOfDate(d);
    KeyOfDateTime(d, Midnight);
    DateAgainstDateTime(d, d, Midnight);
  }
}
