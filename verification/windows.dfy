/** The two month windows of the program. The command-line module keeps a
    transaction when `'YYYY-MM-01' <= data <= 'YYYY-MM-<last day>'` (SQL
    `BETWEEN`); the dashboard keeps it when
    `'YYYY-MM-01T00:00:00' <= data < '<next month>-01T00:00:00'`. Both compare
    text, so what they keep depends on how the date was written. */
module Windows {
  import opened Wrappers
  import opened Text
  import opened Formatting
  import opened Calendar
  import opened Timestamps
  import opened Ledger

  datatype Bounds = Bounds(low: string, high: string)

  /** `f"{year:04d}-{month:02d}-{day:02d}"` is the ISO date when it fits. */
  lemma RenderDate(year: nat, month: nat, day: nat)
    requires year < 10000 && month < 100 && day < 100
    ensures FormatInt(year, 4) + "-" + FormatInt(month, 2) + "-" + FormatInt(day, 2)
            == IsoDate(Date(year, month, day))
  {
    FormatIsFixed(year, 4);
    FormatIsFixed(month, 2);
    FormatIsFixed(day, 2);
  }

  /** ... and with `T00:00:00` appended it is midnight of that day. */
  lemma RenderMidnight(year: nat, month: nat)
    requires year < 10000 && month < 100
    ensures FormatInt(year, 4) + "-" + FormatInt(month, 2) + "-01T00:00:00"
            == IsoDateTime(Date(year, month, 1), Midnight)
  {
    FormatIsFixed(year, 4);
    FormatIsFixed(month, 2);
    FormatIsFixed(1, 2);
    RenderOne();
    MidnightText();
    MidnightShape(Fixed(year, 4), Fixed(month, 2));
  }

  lemma MidnightShape(y: string, m: string)
    ensures y + "-" + m + "-01T00:00:00" == y + ("-" + (m + ("-" + "01"))) + ("T" + "00:00:00")
  {
    assert "-" + "01" + ("T" + "00:00:00") == "-01T00:00:00";
  }

  lemma RenderOne()
    ensures FormatInt(1, 2) == "01"
  {
    FormatIsFixed(1, 2);
  }

  lemma MidnightText()
    ensures ClockText(Midnight) == "00:00:00"
  {
  }

  /** The `BETWEEN` bounds of `listar_transacoes_mes` and `resumo_mes`; the
      month must be 1..12 or `calendar.monthrange` raises. */
  function ClosedBounds(year: int, month: int): (r: Result<Bounds, LedgerError>)
    ensures r.Ok? <==> 1 <= month <= 12
    ensures r.Err? ==> r.error == IllegalMonth(month)
    ensures r.Ok? && 0 <= year <= 9999 ==>
      r.value == Bounds(IsoDate(Date(year, month, 1)), IsoDate(Date(year, month, DaysInMonth(year, month))))
  {
    match MonthRange(year, month)
    case Err(_) => Err(IllegalMonth(month))
    case Ok(lastDay) =>
      var low := FormatInt(year, 4) + "-" + FormatInt(month, 2) + "-01";
      var high := FormatInt(year, 4) + "-" + FormatInt(month, 2) + "-" + FormatInt(lastDay, 2);
      if 0 <= year <= 9999 then
        RenderDate(year, month, 1);
        RenderDate(year, month, lastDay);
        RenderOne();
        assert low == FormatInt(year, 4) + "-" + FormatInt(month, 2) + "-" + FormatInt(1, 2);
        Ok(Bounds(low, high))
      else Ok(Bounds(low, high))
  }

  /** `data BETWEEN low AND high`, which SQLite evaluates as
      `data >= low AND data <= high`: neither bound is passed. */
  function InClosed(b: Bounds, text: string): (r: bool)
    ensures r <==> !TextLt(text, b.low) && !TextLt(b.high, text)
  {
    TextLeNotGreater(b.low, text);
    TextLeNotGreater(text, b.high);
    TextLe(b.low, text) && TextLe(text, b.high)
  }

  /** The upper bound `buscar_transacoes` writes: the first of the next month. */
  function NextMonthStartText(year: int, month: int): string {
    if month == 12 then FormatInt(year + 1, 4) + "-01-01T00:00:00"
    else FormatInt(year, 4) + "-" + FormatInt(month + 1, 2) + "-01T00:00:00"
  }

  lemma RenderNextMonthStart(year: nat, month: nat)
    requires 1 <= month <= 12 && NextMonth(year, month).0 <= 9999
    ensures var next := NextMonth(year, month);
            NextMonthStartText(year, month) == IsoDateTime(Date(next.0, next.1, 1), Midnight)
  {
    if month == 12 {
      RenderMidnight(year + 1, 1);
      RenderOne();
      var p := FormatInt(year + 1, 4);
      assert "-" + "01" + "-01T00:00:00" == "-01-01T00:00:00";
      assert p + "-" + "01" + "-01T00:00:00" == p + ("-" + "01" + "-01T00:00:00");
    } else {
      RenderMidnight(year, month + 1);
    }
  }

  /** The half-open bounds of `buscar_transacoes`; December rolls into
      January of the next year. */
  function HalfOpenBounds(year: int, month: int): (b: Bounds)
    ensures 0 <= year && 1 <= month <= 12 && NextMonth(year, month).0 <= 9999 ==>
      var next := NextMonth(year, month);
      b == Bounds(IsoDateTime(Date(year, month, 1), Midnight), IsoDateTime(Date(next.0, next.1, 1), Midnight))
  {
    var low := FormatInt(year, 4) + "-" + FormatInt(month, 2) + "-01T00:00:00";
    var high := NextMonthStartText(year, month);
    if 0 <= year && 1 <= month <= 12 && NextMonth(year, month).0 <= 9999 then
      RenderMidnight(year, month);
      RenderNextMonthStart(year, month);
      Bounds(low, high)
    else Bounds(low, high)
  }

  /** `data >= low AND data < high`: not below the lower bound, strictly
      below the upper one. */
  function InHalfOpen(b: Bounds, text: string): (r: bool)
    ensures r <==> !TextLt(text, b.low) && TextLt(text, b.high)
  {
    TextLeNotGreater(b.low, text);
    TextLe(b.low, text) && TextLt(text, b.high)
  }

  /** Date-only text in the closed window: exactly the days of the month. */
  lemma ClosedWindowDates(year: int, month: int, d: Date)
    requires 0 <= year <= 9999 && 1 <= month <= 12 && ValidDate(d)
    ensures InClosed(ClosedBounds(year, month).value, IsoDate(d)) <==> d.year == year && d.month == month
  {
    var first := Date(year, month, 1);
    var last := Date(year, month, DaysInMonth(year, month));
    IsoDateOrder(first, d);
    IsoDateOrder(d, last);
  }

  /** Date-time text in the closed window: the days of the month except the
      last, since `'YYYY-MM-31T..'` sorts after `'YYYY-MM-31'`. */
  lemma ClosedWindowDateTimes(year: int, month: int, d: Date, c: Clock)
    requires 0 <= year <= 9999 && 1 <= month <= 12 && ValidDate(d) && ValidClock(c)
    ensures InClosed(ClosedBounds(year, month).value, IsoDateTime(d, c)) <==>
      d.year == year && d.month == month && d.day < DaysInMonth(year, month)
  {
    var first := Date(year, month, 1);
    var last := Date(year, month, DaysInMonth(year, month));
    DateAgainstDateTime(first, d, c);
    DateAgainstDateTime(last, d, c);
  }

  /** Date-time text in the half-open window: exactly the instants of the
      month, the last second included and the next month's midnight not. */
  lemma HalfOpenWindowDateTimes(year: int, month: int, d: Date, c: Clock)
    requires 0 <= year && 1 <= month <= 12 && NextMonth(year, month).0 <= 9999
    requires ValidDate(d) && ValidClock(c)
    ensures InHalfOpen(HalfOpenBounds(year, month), IsoDateTime(d, c)) <==> d.year == year && d.month == month
  {
    var next := NextMonth(year, month);
    var b := HalfOpenBounds(year, month);
    IsoDateTimeOrder(d, c, Date(year, month, 1), Midnight);
    IsoDateTimeOrder(d, c, Date(next.0, next.1, 1), Midnight);
    TextLeNotGreater(b.low, IsoDateTime(d, c));
  }

  /** Date-only text in the half-open window: the first of the month sorts
      before `'..-01T00:00:00'` and is left out, while the first of the next
      month sorts before the upper bound and is let in. */
  lemma HalfOpenWindowDates(year: int, month: int, d: Date)
    requires 0 <= year && 1 <= month <= 12 && NextMonth(year, month).0 <= 9999
    requires ValidDate(d)
    ensures var next := NextMonth(year, month);
            InHalfOpen(HalfOpenBounds(year, month), IsoDate(d)) <==>
              (d.year == year && d.month == month && d.day >= 2) || d == Date(next.0, next.1, 1)
  {
    var next := NextMonth(year, month);
    DateAgainstDateTime(d, Date(year, month, 1), Midnight);
    DateAgainstDateTime(d, Date(next.0, next.1, 1), Midnight);
  }

  /** The digit fields of the example timestamps below. */
  lemma ExampleFields()
    ensures Fixed(2025, 4) == "2025"
    ensures Fixed(0, 2) == "00" && Fixed(1, 2) == "01" && Fixed(2, 2) == "02"
    ensures Fixed(10, 2) == "10" && Fixed(23, 2) == "23" && Fixed(31, 2) == "31" && Fixed(59, 2) == "59"
  {
    assert Fixed(2, 1) == "2";
    assert Fixed(20, 2) == "20";
    assert Fixed(202, 3) == "202";
    assert Fixed(0, 1) == "0" && Fixed(1, 1) == "1" && Fixed(3, 1) == "3" && Fixed(5, 1) == "5";
  }

  lemma ExampleDate(d: Date, text: string)
    requires DateFits(d)
    requires text == Fixed(d.year, 4) + "-" + Fixed(d.month, 2) + "-" + Fixed(d.day, 2)
    ensures IsoDate(d) == text
  {
  }

  lemma ExampleDateTime(d: Date, c: Clock, text: string)
    requires DateFits(d) && ClockFits(c)
    requires text == Fixed(d.year, 4) + "-" + Fixed(d.month, 2) + "-" + Fixed(d.day, 2) + "T"
                     + Fixed(c.hour, 2) + ":" + Fixed(c.minute, 2) + ":" + Fixed(c.second, 2)
    ensures IsoDateTime(d, c) == text
  {
  }

  /** The command-line summary of January 2025 keeps a date written on the
      31st ... */
  lemma ClosedWindowLastDate()
    ensures InClosed(ClosedBounds(2025, 1).value, "2025-01-31")
  {
    // fresh names for the literals keep the solver from evaluating the window text
    var d: Date :| d == Date(2025, 1, 31);
    ExampleFields();
    ExampleDate(d, "2025" + "-" + "01" + "-" + "31");
    assert "2025" + "-" + "01" + "-" + "31" == "2025-01-31";
    ClosedWindowDates(2025, 1, d);
  }

  /** ... but drops a date-time written on that day. */
  lemma ClosedWindowLastDayTime()
    ensures !InClosed(ClosedBounds(2025, 1).value, "2025-01-31T10:00:00")
  {
    var d: Date, c: Clock :| d == Date(2025, 1, 31) && c == Clock(10, 0, 0);
    ExampleFields();
    ExampleDateTime(d, c, "2025" + "-" + "01" + "-" + "31" + "T" + "10" + ":" + "00" + ":" + "00");
    assert "2025" + "-" + "01" + "-" + "31" + "T" + "10" + ":" + "00" + ":" + "00" == "2025-01-31T10:00:00";
    assert DaysInMonth(2025, 1) == 31;
    ClosedWindowDateTimes(2025, 1, d, c);
  }

  /** The dashboard's January 2025 keeps its last second ... */
  lemma HalfOpenWindowLastSecond()
    ensures InHalfOpen(HalfOpenBounds(2025, 1), "2025-01-31T23:59:59")
  {
    var d: Date, c: Clock :| d == Date(2025, 1, 31) && c == Clock(23, 59, 59);
    ExampleFields();
    ExampleDateTime(d, c, "2025" + "-" + "01" + "-" + "31" + "T" + "23" + ":" + "59" + ":" + "59");
    assert "2025" + "-" + "01" + "-" + "31" + "T" + "23" + ":" + "59" + ":" + "59" == "2025-01-31T23:59:59";
    HalfOpenWindowDateTimes(2025, 1, d, c);
  }

  /** ... and drops February's first instant. */
  lemma HalfOpenWindowNextMidnight()
    ensures !InHalfOpen(HalfOpenBounds(2025, 1), "2025-02-01T00:00:00")
  {
    var d: Date, c: Clock :| d == Date(2025, 2, 1) && c == Midnight;
    ExampleFields();
    ExampleDateTime(d, c, "2025" + "-" + "02" + "-" + "01" + "T" + "00" + ":" + "00" + ":" + "00");
    assert "2025" + "-" + "02" + "-" + "01" + "T" + "00" + ":" + "00" + ":" + "00" == "2025-02-01T00:00:00";
    HalfOpenWindowDateTimes(2025, 1, d, c);
  }

  /** In every year December keeps its last second and ends before the
      next year's first midnight. */
  lemma HalfOpenWindowDecember(year: nat)
    requires year <= 9998
    ensures InHalfOpen(HalfOpenBounds(year, 12), IsoDateTime(Date(year, 12, 31), Clock(23, 59, 59)))
    ensures !InHalfOpen(HalfOpenBounds(year, 12), IsoDateTime(Date(year + 1, 1, 1), Midnight))
  {
    HalfOpenWindowDateTimes(year, 12, Date(year, 12, 31), Clock(23, 59, 59));
    HalfOpenWindowDateTimes(year, 12, Date(year + 1, 1, 1), Midnight);
  }

  /** A date written by the menu on the 1st falls outside the dashboard's
      month ... */
  lemma HalfOpenWindowFirstDayOut()
    ensures !InHalfOpen(HalfOpenBounds(2025, 1), "2025-01-01")
  {
    var first: Date :| first == Date(2025, 1, 1);
    ExampleFields();
    ExampleDate(first, "2025" + "-" + "01" + "-" + "01");
    assert "2025" + "-" + "01" + "-" + "01" == "2025-01-01";
    HalfOpenWindowDates(2025, 1, first);
  }

  /** ... and one written on the 1st of the next month falls inside. */
  lemma HalfOpenWindowNextFirstIn()
    ensures InHalfOpen(HalfOpenBounds(2025, 1), "2025-02-01")
  {
    var next: Date :| next == Date(2025, 2, 1);
    ExampleFields();
    ExampleDate(next, "2025" + "-" + "02" + "-" + "01");
    assert "2025" + "-" + "02" + "-" + "01" == "2025-02-01";
    HalfOpenWindowDates(2025, 1, next);
  }
}
