/** ISO-8601 timestamps as the program writes them: `YYYY-MM-DD` from the
    interactive menu and `YYYY-MM-DDTHH:MM:SS` from `isoformat`. They are
    stored as TEXT and compared as text, so their order is string order. */
module Timestamps {
  import opened Text
  import opened Formatting
  import opened Calendar

  datatype Date = Date(year: nat, month: nat, day: nat)
  datatype Clock = Clock(hour: nat, minute: nat, second: nat)

  const Midnight := Clock(0, 0, 0)

  /** Fields small enough for their fixed-width rendering. */
  predicate DateFits(d: Date) {
    d.year < 10000 && d.month < 100 && d.day < 100
  }

  predicate ClockFits(c: Clock) {
    c.hour < 100 && c.minute < 100 && c.second < 100
  }

  /** A calendar date with a four-digit year. */
  predicate ValidDate(d: Date) {
    d.year <= 9999 && 1 <= d.month <= 12 && 1 <= d.day <= DaysInMonth(d.year, d.month)
  }

  predicate ValidClock(c: Clock) {
    c.hour < 24 && c.minute < 60 && c.second < 60
  }

  predicate DateLt(a: Date, b: Date) {
    a.year < b.year
    || (a.year == b.year && a.month < b.month)
    || (a.year == b.year && a.month == b.month && a.day < b.day)
  }

  predicate ClockLt(a: Clock, b: Clock) {
    a.hour < b.hour
    || (a.hour == b.hour && a.minute < b.minute)
    || (a.hour == b.hour && a.minute == b.minute && a.second < b.second)
  }

  function IsoDate(d: Date): (s: string)
    requires DateFits(d)
    ensures |s| == 10
  {
    Fixed(d.year, 4) + ("-" + (Fixed(d.month, 2) + ("-" + Fixed(d.day, 2))))
  }

  function ClockText(c: Clock): (s: string)
    requires ClockFits(c)
    ensures |s| == 8
  {
    Fixed(c.hour, 2) + (":" + (Fixed(c.minute, 2) + (":" + Fixed(c.second, 2))))
  }

  /** `datetime.isoformat(timespec="seconds")`. */
  function IsoDateTime(d: Date, c: Clock): (s: string)
    requires DateFits(d) && ClockFits(c)
    ensures |s| == 19
  {
    IsoDate(d) + ("T" + ClockText(c))
  }

  lemma SeparatorLt(sep: string, x: string, y: string)
    ensures TextLt(sep + x, sep + y) <==> TextLt(x, y)
  {
    ConcatLt(sep, x, sep, y);
    TextLtIrreflexive(sep);
  }

  lemma SeparatorEq(sep: string, x: string, y: string)
    ensures sep + x == sep + y <==> x == y
  {
    if sep + x == sep + y {
      assert x == (sep + x)[|sep|..];
      assert y == (sep + y)[|sep|..];
    }
  }

  /** Two fields of equal width followed by remainders: the text order is
      the order of the field values, then of the remainders. */
  lemma FieldThen(a: nat, b: nat, w: nat, x: string, y: string)
    requires a < Pow10(w) && b < Pow10(w)
    ensures TextLt(Fixed(a, w) + x, Fixed(b, w) + y) <==> a < b || (a == b && TextLt(x, y))
    ensures Fixed(a, w) + x == Fixed(b, w) + y <==> a == b && x == y
  {
    ConcatLt(Fixed(a, w), x, Fixed(b, w), y);
    FixedOrder(a, b, w);
    if Fixed(a, w) + x == Fixed(b, w) + y {
      assert Fixed(a, w) == (Fixed(a, w) + x)[..w];
      assert Fixed(b, w) == (Fixed(b, w) + y)[..w];
      assert x == (Fixed(a, w) + x)[w..];
      assert y == (Fixed(b, w) + y)[w..];
    }
  }

  lemma Pow10Small()
    ensures Pow10(2) == 100 && Pow10(4) == 10000
  {
  }

  /** Rendered dates sort exactly as the dates do. */
  lemma IsoDateOrder(a: Date, b: Date)
    requires DateFits(a) && DateFits(b)
    ensures TextLt(IsoDate(a), IsoDate(b)) <==> DateLt(a, b)
    ensures IsoDate(a) == IsoDate(b) <==> a == b
  {
    Pow10Small();
    FixedOrder(a.day, b.day, 2);
    SeparatorLt("-", Fixed(a.day, 2), Fixed(b.day, 2));
    SeparatorEq("-", Fixed(a.day, 2), Fixed(b.day, 2));
    var ra := "-" + Fixed(a.day, 2);
    var rb := "-" + Fixed(b.day, 2);
    FieldThen(a.month, b.month, 2, ra, rb);
    SeparatorLt("-", Fixed(a.month, 2) + ra, Fixed(b.month, 2) + rb);
    SeparatorEq("-", Fixed(a.month, 2) + ra, Fixed(b.month, 2) + rb);
    FieldThen(a.year, b.year, 4, "-" + (Fixed(a.month, 2) + ra), "-" + (Fixed(b.month, 2) + rb));
  }

  /** Rendered times of day sort exactly as the times do. */
  lemma ClockTextOrder(a: Clock, b: Clock)
    requires ClockFits(a) && ClockFits(b)
    ensures TextLt(ClockText(a), ClockText(b)) <==> ClockLt(a, b)
    ensures ClockText(a) == ClockText(b) <==> a == b
  {
    Pow10Small();
    FixedOrder(a.second, b.second, 2);
    SeparatorLt(":", Fixed(a.second, 2), Fixed(b.second, 2));
    SeparatorEq(":", Fixed(a.second, 2), Fixed(b.second, 2));
    var ra := ":" + Fixed(a.second, 2);
    var rb := ":" + Fixed(b.second, 2);
    FieldThen(a.minute, b.minute, 2, ra, rb);
    SeparatorLt(":", Fixed(a.minute, 2) + ra, Fixed(b.minute, 2) + rb);
    SeparatorEq(":", Fixed(a.minute, 2) + ra, Fixed(b.minute, 2) + rb);
    FieldThen(a.hour, b.hour, 2, ":" + (Fixed(a.minute, 2) + ra), ":" + (Fixed(b.minute, 2) + rb));
  }

  /** Rendered date-times sort chronologically. */
  lemma IsoDateTimeOrder(a: Date, c: Clock, b: Date, e: Clock)
    requires DateFits(a) && ClockFits(c) && DateFits(b) && ClockFits(e)
    ensures TextLt(IsoDateTime(a, c), IsoDateTime(b, e)) <==> DateLt(a, b) || (a == b && ClockLt(c, e))
    ensures IsoDateTime(a, c) == IsoDateTime(b, e) <==> a == b && c == e
  {
    IsoDateOrder(a, b);
    ClockTextOrder(c, e);
    ConcatLt(IsoDate(a), "T" + ClockText(c), IsoDate(b), "T" + ClockText(e));
    SeparatorLt("T", ClockText(c), ClockText(e));
    SeparatorEq("T", ClockText(c), ClockText(e));
    if IsoDateTime(a, c) == IsoDateTime(b, e) {
      assert IsoDate(a) == IsoDateTime(a, c)[..10];
      assert IsoDate(b) == IsoDateTime(b, e)[..10];
      assert "T" + ClockText(c) == IsoDateTime(a, c)[10..];
      assert "T" + ClockText(e) == IsoDateTime(b, e)[10..];
    }
  }

  /** A date-only text sorts before every date-time on or after that day,
      and after every date-time of an earlier day. */
  lemma DateAgainstDateTime(a: Date, b: Date, e: Clock)
    requires DateFits(a) && DateFits(b) && ClockFits(e)
    ensures TextLt(IsoDate(a), IsoDateTime(b, e)) <==> !DateLt(b, a)
    ensures TextLt(IsoDateTime(b, e), IsoDate(a)) <==> DateLt(b, a)
    ensures IsoDate(a) != IsoDateTime(b, e)
  {
    IsoDateOrder(a, b);
    IsoDateOrder(b, a);
    PrefixAgainst(IsoDate(a), IsoDate(b), "T" + ClockText(e));
    assert |IsoDate(a)| != |IsoDateTime(b, e)|;
  }
}
