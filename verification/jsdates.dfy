/**
 * The part of the JavaScript `Date` object the billing clock touches, on local
 * calendar components only (no time of day, no time zone):
 *
 *  - `new Date(y, m - 1, d)` builds a date from numbers and normalises them
 *    the way the language's MakeDay does: whole years carried out of the month
 *    first, then surplus (or missing) days carried into following (or
 *    preceding) months. Years 0..99 given to this constructor mean 1900..1999.
 *  - `date.setMonth(date.getMonth() + k)` keeps the day of the month and lets
 *    it overflow: 31 January plus one month is 3 March (2 March in a leap year),
 *    not the last day of February.
 *  - A date outside the representable range (100,000,000 days either side of
 *    1 January 1970) is the invalid date, whose components print as "NaN".
 *  - `getLocalDateString` (useStorage.js) prints `YYYY-MM-DD` with a zero-padded
 *    month and day but an unpadded year.
 */
module JsDates {
  import opened Wrappers
  import opened Text

  /** Local components as a Date reports them: `getFullYear()`, `getMonth() + 1` (1..12), `getDate()`. */
  datatype CalDate = CalDate(year: int, month: int, day: int)

  /** A Date object: a calendar day, or the invalid date (time value NaN). */
  datatype JsDate = Valid(date: CalDate) | Invalid

  predicate IsLeapYear(y: int) {
    y % 4 == 0 && (y % 100 != 0 || y % 400 == 0)
  }

  function DaysInMonth(y: int, m: int): (n: int)
    requires 1 <= m <= 12
    ensures 28 <= n <= 31
    ensures n == 28 <==> m == 2 && !IsLeapYear(y)
  {
    if m == 2 then (if IsLeapYear(y) then 29 else 28)
    else if m == 4 || m == 6 || m == 9 || m == 11 then 30
    else 31
  }

  /** A real day of the proleptic Gregorian calendar. */
  predicate WellFormed(c: CalDate) {
    1 <= c.month <= 12 && 1 <= c.day <= DaysInMonth(c.year, c.month)
  }

  /** Chronological order of calendar days: by year, then month, then day. */
  predicate Before(a: CalDate, b: CalDate) {
    a.year < b.year || (a.year == b.year && (a.month < b.month || (a.month == b.month && a.day < b.day)))
  }

  predicate NotAfter(a: CalDate, b: CalDate) {
    !Before(b, a)
  }

  /** The first and last days a Date can hold. */
  const MinDate := CalDate(-271821, 4, 20)
  const MaxDate := CalDate(275760, 9, 13)

  predicate InRange(c: CalDate) {
    NotAfter(MinDate, c) && NotAfter(c, MaxDate)
  }

  /** A day a valid Date can hold. */
  predicate IsDate(c: CalDate) {
    WellFormed(c) && InRange(c)
  }

  /** Every Date the model builds: invalid, or holding a representable day. */
  predicate Good(d: JsDate) {
    d.Valid? ==> IsDate(d.date)
  }

  /** Months since January of year 0; consecutive months have consecutive indices. */
  function MonthIndex(c: CalDate): int {
    c.year * 12 + c.month - 1
  }

  // ---------------------------------------------------------------------------
  // Construction and month arithmetic

  /** Day `d` of the month after month `m` of year `y`. */
  function MonthAfter(y: int, m: int, d: int): (c: CalDate)
    requires 1 <= m <= 12
    ensures MonthIndex(c) == 12 * y + m && 1 <= c.month <= 12 && c.day == d
  {
    if m == 12 then CalDate(y + 1, 1, d) else CalDate(y, m + 1, d)
  }

  /** Day normalisation: day `d` of month `m` of year `y`, where `d` may lie outside the month. */
  function CarryDays(y: int, m: int, d: int): (c: CalDate)
    requires 1 <= m <= 12
    ensures WellFormed(c)
    ensures 1 <= d <= DaysInMonth(y, m) ==> c == CalDate(y, m, d)
    ensures DaysInMonth(y, m) < d <= DaysInMonth(y, m) + 28 ==> c == MonthAfter(y, m, d - DaysInMonth(y, m))
    decreases if d < 1 then 1 else 0, if d < 1 then -d else d
  {
    if d < 1 then
      var py := if m == 1 then y - 1 else y;
      var pm := if m == 1 then 12 else m - 1;
      CarryDays(py, pm, d + DaysInMonth(py, pm))
    else if d > DaysInMonth(y, m) then
      var ny := if m == 12 then y + 1 else y;
      var nm := if m == 12 then 1 else m + 1;
      CarryDays(ny, nm, d - DaysInMonth(y, m))
    else
      CalDate(y, m, d)
  }

  /**
   * The date for year `y`, zero-based month `m0` and day `d`, all possibly out of
   * their usual ranges: months carry into years (floor division), days into
   * months, and a result outside the representable range is the invalid date.
   */
  function MakeDate(y: int, m0: int, d: int): (r: JsDate)
    ensures Good(r)
    ensures 0 <= m0 < 12 && 1 <= d <= DaysInMonth(y, m0 + 1) ==>
              r == if InRange(CalDate(y, m0 + 1, d)) then Valid(CalDate(y, m0 + 1, d)) else Invalid
    ensures 0 <= m0 < 12 && DaysInMonth(y, m0 + 1) < d <= DaysInMonth(y, m0 + 1) + 28 ==>
              var c := MonthAfter(y, m0 + 1, d - DaysInMonth(y, m0 + 1));
              r == if InRange(c) then Valid(c) else Invalid
  {
    var c := CarryDays(y + m0 / 12, m0 % 12 + 1, d);
    if InRange(c) then Valid(c) else Invalid
  }

  /** `new Date(y, m0, d)`: as MakeDate, except that years 0..99 stand for 1900..1999. */
  function Construct(y: int, m0: int, d: int): (r: JsDate)
    ensures Good(r)
  {
    MakeDate(if 0 <= y <= 99 then 1900 + y else y, m0, d)
  }

  /** The day `k` months after `c` on the same day of the month, ignoring whether that day exists. */
  function Shift(c: CalDate, k: int): (r: CalDate)
    requires WellFormed(c)
    ensures MonthIndex(r) == MonthIndex(c) + k && r.day == c.day && 1 <= r.month <= 12
  {
    var mi := MonthIndex(c) + k;
    CalDate(mi / 12, mi % 12 + 1, c.day)
  }

  /**
   * Where `setMonth` puts the day `k` months on: the same day of the target
   * month when that month has it, otherwise the surplus days into the month after.
   */
  function Landing(c: CalDate, k: int): (r: CalDate)
    requires WellFormed(c)
    ensures WellFormed(r)
  {
    var t := Shift(c, k);
    var n := DaysInMonth(t.year, t.month);
    if c.day <= n then t else MonthAfter(t.year, t.month, c.day - n)
  }

  /** `date.setMonth(date.getMonth() + k)`, applied to a copy of `jd`. */
  function AddMonths(jd: JsDate, k: int): (r: JsDate)
    ensures Good(r)
    ensures jd.Invalid? ==> r.Invalid?
    ensures jd.Valid? && WellFormed(jd.date) ==>
              r == if InRange(Landing(jd.date, k)) then Valid(Landing(jd.date, k)) else Invalid
  {
    match jd
    case Invalid => Invalid
    case Valid(c) =>
      var r := MakeDate(c.year, c.month - 1 + k, c.day);
      assert WellFormed(c) ==> r == if InRange(Landing(c, k)) then Valid(Landing(c, k)) else Invalid by {
        if WellFormed(c) {
          MonthCarryLands(c, k);
        }
      }
      r
  }

  /** Carrying `k` months out of the month of `c` reaches the month of Shift(c, k), where the day then carries. */
  lemma MonthCarryLands(c: CalDate, k: int)
    requires WellFormed(c)
    ensures CarryDays(c.year + (c.month - 1 + k) / 12, (c.month - 1 + k) % 12 + 1, c.day) == Landing(c, k)
  {
    var x := c.month - 1 + k;
    var t := Shift(c, k);
    assert t == CalDate(c.year + x / 12, x % 12 + 1, c.day) by {
      assert MonthIndex(c) + k == 12 * c.year + x;
      assert (12 * c.year + x) / 12 == c.year + x / 12 && (12 * c.year + x) % 12 == x % 12;
    }
    var n := DaysInMonth(t.year, t.month);
    if c.day <= n {
      assert CarryDays(t.year, t.month, c.day) == t;
    } else {
      assert c.day <= n + 28;
    }
  }

  /** The date reached from `jd` by `j` successive one-month `setMonth` steps. */
  function Step(jd: JsDate, j: nat): JsDate
    decreases j
  {
    if j == 0 then jd else Step(AddMonths(jd, 1), j - 1)
  }

  // ---------------------------------------------------------------------------
  // Text form

  /** `getLocalDateString(date)`: `${year}-${pad2(month)}-${pad2(day)}`; every field of the invalid date prints as NaN. */
  function Format(jd: JsDate): string {
    match jd
    case Invalid => "NaN-NaN-NaN"
    case Valid(c) => IntStr(c.year) + "-" + PadStart2(IntStr(c.month)) + "-" + PadStart2(IntStr(c.day))
  }

  /**
   * `const [y, m, d] = s.split('-').map(Number); new Date(y, m - 1, d)`.
   * A missing piece is `undefined` and a non-numeric piece NaN; either makes the date invalid.
   */
  function ParseDate(s: string): (r: JsDate)
    ensures Good(r)
  {
    var parts := Split(s, '-');
    if |parts| < 3 then Invalid
    else
      match (ToNumber(parts[0]), ToNumber(parts[1]), ToNumber(parts[2]))
      case (Some(y), Some(m), Some(d)) => Construct(y, m as int - 1, d)
      case _ => Invalid
  }

  // ---------------------------------------------------------------------------
  // Lemmas: text form

  lemma DigitsHaveNoDash(s: string)
    requires AllDigits(s)
    ensures '-' !in s
  {
  }

  /** A month or day number prints as two digits that read back as the number. */
  lemma PadPiece(n: nat)
    requires 1 <= n < 100
    ensures AllDigits(PadStart2(NatStr(n))) && |PadStart2(NatStr(n))| == 2
    ensures DigitsVal(PadStart2(NatStr(n))) == n
  {
    PadNatValue(n);
    NatStrWidth(n);
  }

  /** The printed pieces of a valid date with a non-negative year, and what they denote. */
  lemma FormatPieces(c: CalDate)
    requires WellFormed(c) && c.year >= 0
    ensures Format(Valid(c)) == NatStr(c.year) + "-" + PadStart2(NatStr(c.month)) + "-" + PadStart2(NatStr(c.day))
    ensures AllDigits(PadStart2(NatStr(c.month))) && |PadStart2(NatStr(c.month))| == 2
    ensures AllDigits(PadStart2(NatStr(c.day))) && |PadStart2(NatStr(c.day))| == 2
    ensures DigitsVal(NatStr(c.year)) == c.year
    ensures DigitsVal(PadStart2(NatStr(c.month))) == c.month
    ensures DigitsVal(PadStart2(NatStr(c.day))) == c.day
  {
    assert IntStr(c.year) == NatStr(c.year);
    assert IntStr(c.month) == NatStr(c.month);
    assert IntStr(c.day) == NatStr(c.day);
    NatStrValue(c.year);
    PadPiece(c.month);
    PadPiece(c.day);
  }

  /** Parsing text that splits into three numeric pieces constructs the date they denote. */
  lemma ParseThree(s: string, a: string, b: string, c: string, y: nat, m: nat, d: nat)
    requires Split(s, '-') == [a, b, c]
    requires ToNumber(a) == Some(y) && ToNumber(b) == Some(m) && ToNumber(c) == Some(d)
    ensures ParseDate(s) == Construct(y, m as int - 1, d)
  {
  }

  /**
   * Printing a date and parsing the text back gives the same date, as long as
   * the constructor's two-digit-year rule does not apply (years from 100 on).
   */
  lemma FormatParseRoundTrip(c: CalDate)
    requires IsDate(c) && c.year >= 100
    ensures ParseDate(Format(Valid(c))) == Valid(c)
  {
    var s := Format(Valid(c));
    FormatPieces(c);
    var y, m, d := NatStr(c.year), PadStart2(NatStr(c.month)), PadStart2(NatStr(c.day));
    DigitsHaveNoDash(y);
    DigitsHaveNoDash(m);
    DigitsHaveNoDash(d);
    SplitThree(y, m, d, '-');
    assert s == y + ['-'] + m + ['-'] + d;
    assert Split(s, '-') == [y, m, d];
    assert ToNumber(y) == Some(c.year);
    assert ToNumber(m) == Some(c.month);
    assert ToNumber(d) == Some(c.day);
    ParseThree(s, y, m, d, c.year, c.month, c.day);
    assert Construct(c.year, c.month - 1, c.day) == MakeDate(c.year, c.month - 1, c.day) == Valid(c);
  }

  /** The invalid date prints after any valid one, so a loop guarded by `<= today` stops on it. */
  lemma InvalidPrintsLast(today: CalDate)
    ensures !StrLeq(Format(Invalid), Format(Valid(today)))
  {
    var t := Format(Valid(today));
    assert t[0] == IntStr(today.year)[0];
  }

  /** Strict half of FormatOrder. */
  lemma FormatLess(a: CalDate, b: CalDate)
    requires WellFormed(a) && WellFormed(b)
    requires 1000 <= a.year <= 9999 && 1000 <= b.year <= 9999
    ensures StrLess(Format(Valid(a)), Format(Valid(b))) <==> Before(a, b)
  {
    FormatPieces(a);
    FormatPieces(b);
    NatStrWidth(a.year);
    NatStrWidth(b.year);
    var ya, ma, da := NatStr(a.year), PadStart2(NatStr(a.month)), PadStart2(NatStr(a.day));
    var yb, mb, db := NatStr(b.year), PadStart2(NatStr(b.month)), PadStart2(NatStr(b.day));
    DigitsOrder(ya, yb);
    DigitsOrder(ma, mb);
    DigitsOrder(da, db);
    DashedLess(ya, ma, da, yb, mb, db);
  }

  /**
   * For four-digit years the printed text orders exactly as the calendar does,
   * which is what lets the billing loop compare dates as strings.
   */
  lemma FormatOrder(a: CalDate, b: CalDate)
    requires IsDate(a) && IsDate(b)
    requires 1000 <= a.year <= 9999 && 1000 <= b.year <= 9999
    ensures StrLess(Format(Valid(a)), Format(Valid(b))) <==> Before(a, b)
    ensures Format(Valid(a)) == Format(Valid(b)) <==> a == b
    ensures StrLeq(Format(Valid(a)), Format(Valid(b))) <==> NotAfter(a, b)
  {
    FormatLess(a, b);
    FormatLess(b, a);
    FormatParseRoundTrip(a);
    FormatParseRoundTrip(b);
  }

  // ---------------------------------------------------------------------------
  // Day numbers: a reference count of days for the carrying in CarryDays

  /** Days in the years before year `y` (counted from year 0, negative before it). */
  function DaysBeforeYear(y: int): int {
    365 * y + (y + 3) / 4 - (y + 99) / 100 + (y + 399) / 400
  }

  /** Days in the months of year `y` before month `m`. */
  function DaysBeforeMonth(y: int, m: int): int
    requires 1 <= m <= 12
  {
    if m == 1 then 0 else DaysBeforeMonth(y, m - 1) + DaysInMonth(y, m - 1)
  }

  /** Days from 1 January of year 0 to the day `c`, counted even when `c.day` lies outside its month. */
  function DayNumber(c: CalDate): int
    requires 1 <= c.month <= 12
  {
    DaysBeforeYear(c.year) + DaysBeforeMonth(c.year, c.month) + c.day - 1
  }

  /** The months before December have 335 days in a leap year and 334 otherwise. */
  lemma BeforeDecember(y: int)
    ensures DaysBeforeMonth(y, 12) == if IsLeapYear(y) then 335 else 334
  {
    var feb := DaysInMonth(y, 2);
    assert DaysBeforeMonth(y, 2) == 31;
    assert DaysBeforeMonth(y, 3) == 31 + feb;
    assert DaysBeforeMonth(y, 4) == 62 + feb;
    assert DaysBeforeMonth(y, 5) == 92 + feb;
    assert DaysBeforeMonth(y, 6) == 123 + feb;
    assert DaysBeforeMonth(y, 7) == 153 + feb;
    assert DaysBeforeMonth(y, 8) == 184 + feb;
    assert DaysBeforeMonth(y, 9) == 215 + feb;
    assert DaysBeforeMonth(y, 10) == 245 + feb;
    assert DaysBeforeMonth(y, 11) == 276 + feb;
  }

  /** A year has 366 days when it is a leap year and 365 otherwise. */
  lemma YearLength(y: int)
    ensures DaysBeforeYear(y + 1) == DaysBeforeYear(y) + if IsLeapYear(y) then 366 else 365
  {
    assert (y + 4) / 4 - (y + 3) / 4 == if y % 4 == 0 then 1 else 0;
    assert (y + 100) / 100 - (y + 99) / 100 == if y % 100 == 0 then 1 else 0;
    assert (y + 400) / 400 - (y + 399) / 400 == if y % 400 == 0 then 1 else 0;
  }

  /** The first of the next month comes as many days after the first of this month as this month has. */
  lemma NextMonthStart(y: int, m: int)
    requires 1 <= m <= 12
    ensures DayNumber(MonthAfter(y, m, 1)) == DayNumber(CalDate(y, m, 1)) + DaysInMonth(y, m)
  {
    if m == 12 {
      YearLength(y);
      BeforeDecember(y);
    }
  }

  /**
   * Whatever the day, CarryDays lands on the well-formed date `d - 1` days
   * after the first of month `m`: surplus days run on into later months,
   * missing ones back into earlier months.
   */
  lemma {:induction false} CarryDaysDayNumber(y: int, m: int, d: int)
    requires 1 <= m <= 12
    ensures DayNumber(CarryDays(y, m, d)) == DayNumber(CalDate(y, m, 1)) + d - 1
    decreases if d < 1 then 1 else 0, if d < 1 then -d else d
  {
    if d < 1 {
      var py := if m == 1 then y - 1 else y;
      var pm := if m == 1 then 12 else m - 1;
      assert CarryDays(y, m, d) == CarryDays(py, pm, d + DaysInMonth(py, pm));
      CarryDaysDayNumber(py, pm, d + DaysInMonth(py, pm));
      NextMonthStart(py, pm);
      assert MonthAfter(py, pm, 1) == CalDate(y, m, 1);
    } else if d > DaysInMonth(y, m) {
      var next := MonthAfter(y, m, 1);
      assert CarryDays(y, m, d) == CarryDays(next.year, next.month, d - DaysInMonth(y, m));
      CarryDaysDayNumber(next.year, next.month, d - DaysInMonth(y, m));
      NextMonthStart(y, m);
    }
  }

  /** So CarryDays is the one well-formed date with that day number. */
  lemma CarryDaysUnique(y: int, m: int, d: int, c: CalDate)
    requires 1 <= m <= 12 && WellFormed(c)
    requires DayNumber(c) == DayNumber(CalDate(y, m, 1)) + d - 1
    ensures c == CarryDays(y, m, d)
  {
    CarryDaysDayNumber(y, m, d);
    DayNumberOrder(c, CarryDays(y, m, d));
  }

  /**
   * `new Date(y, m0, d)` for any month and day: `first` is the first of the
   * month `m0` months after January of `y` (so month -1 is December of the year
   * before and month 12 January of the next), and `c` the day `d - 1` days after
   * it, in either direction; the result is `c`, or the invalid date outside the range.
   */
  lemma MakeDateCarries(y: int, m0: int, d: int, first: CalDate, c: CalDate)
    requires 1 <= first.month <= 12 && first.day == 1 && MonthIndex(first) == 12 * y + m0
    requires WellFormed(c) && DayNumber(c) == DayNumber(first) + d - 1
    ensures MakeDate(y, m0, d) == if InRange(c) then Valid(c) else Invalid
  {
    assert first == CalDate(y + m0 / 12, m0 % 12 + 1, 1) by {
      assert (12 * y + m0) / 12 == y + m0 / 12 && (12 * y + m0) % 12 == m0 % 12;
    }
    CarryDaysUnique(y + m0 / 12, m0 % 12 + 1, d, c);
  }

  /** Months before January and after December, as `new Date` carries them. */
  lemma MakeDateCarriesMonths()
    ensures MakeDate(2024, -1, 10) == Valid(CalDate(2023, 12, 10))
    ensures MakeDate(2024, 12, 1) == Valid(CalDate(2025, 1, 1))
    ensures MakeDate(2024, 0, 0) == Valid(CalDate(2023, 12, 31))
  {
    assert CarryDays(2024, 1, 0) == CarryDays(2023, 12, 31);
  }

  /** Well-formed dates in calendar order have increasing day numbers, so a day number names one date. */
  lemma DayNumberOrder(a: CalDate, b: CalDate)
    requires WellFormed(a) && WellFormed(b)
    ensures Before(a, b) <==> DayNumber(a) < DayNumber(b)
    ensures a == b <==> DayNumber(a) == DayNumber(b)
  {
    if a.year < b.year {
      EarlierYear(a, b);
    } else if b.year < a.year {
      EarlierYear(b, a);
    } else if a.month <= b.month {
      MonthsGrow(a.year, a.month, b.month);
    } else {
      MonthsGrow(a.year, b.month, a.month);
    }
  }

  /** Every day of an earlier year has a smaller day number. */
  lemma EarlierYear(a: CalDate, b: CalDate)
    requires WellFormed(a) && WellFormed(b) && a.year < b.year
    ensures DayNumber(a) < DayNumber(b)
  {
    DayNumberInYear(a);
    DayNumberInYear(b);
    YearsGrow(a.year + 1, b.year);
    YearLength(a.year);
  }

  /** A well-formed date's day number falls within its year. */
  lemma DayNumberInYear(c: CalDate)
    requires WellFormed(c)
    ensures DaysBeforeYear(c.year) <= DayNumber(c) < DaysBeforeYear(c.year) + if IsLeapYear(c.year) then 366 else 365
  {
    MonthsGrow(c.year, 1, c.month);
    MonthsGrow(c.year, c.month, 12);
    BeforeDecember(c.year);
  }

  /** Later years start later. */
  lemma {:induction false} YearsGrow(a: int, b: int)
    requires a <= b
    ensures DaysBeforeYear(a) <= DaysBeforeYear(b)
    decreases b - a
  {
    if a < b {
      YearLength(a);
      YearsGrow(a + 1, b);
    }
  }

  /** Within a year, a later month starts at least as many days later as the months between have. */
  lemma {:induction false} MonthsGrow(y: int, m: int, n: int)
    requires 1 <= m <= n <= 12
    ensures DaysBeforeMonth(y, m) + (if m < n then DaysInMonth(y, m) else 0) <= DaysBeforeMonth(y, n)
    decreases n - m
  {
    if m < n {
      MonthsGrow(y, m + 1, n);
    }
  }

  // ---------------------------------------------------------------------------
  // Lemmas: month arithmetic

  /** A day of at most 31 carried from month `m` lands in month `m` or the next one. */
  lemma CarryDaysNear(y: int, m: int, d: int)
    requires 1 <= m <= 12 && 1 <= d <= 31
    ensures 12 * y + m - 1 <= MonthIndex(CarryDays(y, m, d)) <= 12 * y + m
  {
    if d > DaysInMonth(y, m) {
      var ny := if m == 12 then y + 1 else y;
      var nm := if m == 12 then 1 else m + 1;
      assert CarryDays(y, m, d) == CarryDays(ny, nm, d - DaysInMonth(y, m));
      assert CarryDays(ny, nm, d - DaysInMonth(y, m)) == CalDate(ny, nm, d - DaysInMonth(y, m));
    }
  }

  /** One `setMonth` step moves a valid date one or two months later (two when the day overflows). */
  lemma AddMonthAdvances(c: CalDate)
    requires IsDate(c)
    ensures AddMonths(Valid(c), 1).Valid? ==>
              MonthIndex(c) < MonthIndex(AddMonths(Valid(c), 1).date) <= MonthIndex(c) + 2
    ensures AddMonths(Valid(c), 1).Valid? ==>
              (MonthIndex(AddMonths(Valid(c), 1).date) == MonthIndex(c) + 2 <==>
                 c.day > DaysInMonth(Shift(c, 1).year, Shift(c, 1).month))
  {
    var y := c.year + c.month / 12;
    var m := c.month % 12 + 1;
    assert 12 * y + m - 1 == MonthIndex(c) + 1;
    CarryDaysNear(y, m, c.day);
  }

  /** Steps only move forward: a valid stepped date starts from a valid date and is no earlier. */
  lemma {:induction false} StepForward(jd: JsDate, j: nat)
    requires Good(jd)
    ensures Good(Step(jd, j))
    ensures Step(jd, j).Valid? ==> jd.Valid? && MonthIndex(jd.date) + j <= MonthIndex(Step(jd, j).date)
    decreases j
  {
    if j > 0 {
      StepForward(AddMonths(jd, 1), j - 1);
      if jd.Valid? {
        AddMonthAdvances(jd.date);
      }
    }
  }

  /** A step of `j` months is one month and then `j - 1` more. */
  lemma StepShift(jd: JsDate, j: nat)
    requires j >= 1
    ensures Step(jd, j) == Step(AddMonths(jd, 1), j - 1)
  {
  }

  /** Stepping `j + 1` times is stepping `j` times and then once more. */
  lemma {:induction false} StepSucc(jd: JsDate, j: nat)
    ensures Step(jd, j + 1) == AddMonths(Step(jd, j), 1)
    decreases j
  {
    StepShift(jd, j + 1);
    if j > 0 {
      StepSucc(AddMonths(jd, 1), j - 1);
      StepShift(jd, j);
    }
  }

  /** Steps compose: `a` steps followed by `b` steps is `a + b` steps. */
  lemma {:induction false} StepAdd(jd: JsDate, a: nat, b: nat)
    ensures Step(Step(jd, a), b) == Step(jd, a + b)
    decreases a
  {
    if a > 0 {
      StepAdd(AddMonths(jd, 1), a - 1, b);
    }
  }

  /** For days 1..28 a single `setMonth(getMonth() + k)` keeps the day and moves exactly `k` months. */
  lemma AddMonthsShortDay(c: CalDate, k: int)
    requires WellFormed(c) && c.day <= 28
    ensures AddMonths(Valid(c), k) == if InRange(Shift(c, k)) then Valid(Shift(c, k)) else Invalid
  {
    var x := c.month - 1 + k;
    var y, m := c.year + x / 12, x % 12 + 1;
    assert 12 * y + m - 1 == MonthIndex(c) + k;
    assert CalDate(y, m, c.day) == Shift(c, k);
  }

  /** Zero months is no move at all. */
  lemma ShiftZero(c: CalDate)
    requires IsDate(c)
    ensures AddMonths(Valid(c), 0) == Valid(c)
  {
    assert AddMonths(Valid(c), 0) == MakeDate(c.year, c.month - 1, c.day);
  }

  /** A same-day shift past the last representable day stays past it one month later. */
  lemma ShiftPastEnd(c: CalDate, k: nat)
    requires IsDate(c) && c.day <= 28 && !InRange(Shift(c, k))
    ensures !InRange(Shift(c, k + 1))
  {
    var s, t := Shift(c, k), Shift(c, k + 1);
    assert MonthIndex(c) <= MonthIndex(s) < MonthIndex(t);
    assert NotAfter(c, s);
    assert Before(MaxDate, s);
  }

  /** One more step of a same-day shift, when the shifted day is still representable. */
  lemma ShiftStep(c: CalDate, k: nat)
    requires IsDate(c) && c.day <= 28 && InRange(Shift(c, k))
    ensures AddMonths(Valid(Shift(c, k)), 1) == if InRange(Shift(c, k + 1)) then Valid(Shift(c, k + 1)) else Invalid
  {
    var s := Shift(c, k);
    AddMonthsShortDay(s, 1);
    assert Shift(s, 1) == Shift(c, k + 1);
  }

  /** For days 1..28, one more month after a `k`-month jump is a `k + 1`-month jump. */
  lemma ShortDayOneMore(c: CalDate, k: nat)
    requires IsDate(c) && c.day <= 28
    ensures AddMonths(AddMonths(Valid(c), k), 1) == AddMonths(Valid(c), k + 1)
  {
    AddMonthsShortDay(c, k);
    AddMonthsShortDay(c, k + 1);
    if InRange(Shift(c, k)) {
      ShiftStep(c, k);
    } else {
      ShiftPastEnd(c, k);
    }
  }

  /**
   * For days 1..28, jumping `k` months in one `setMonth` call and taking `k`
   * one-month steps land on the same date; for days 29..31 they can differ
   * (see MonthEndRebills in BillingExamples).
   */
  lemma ShortDayStepsAgree(c: CalDate, k: nat)
    requires IsDate(c) && c.day <= 28
    ensures AddMonths(Valid(c), k) == Step(Valid(c), k)
  {
    var jump := (i: nat) => AddMonths(Valid(c), i);
    forall i | 0 <= i < k
      ensures jump(i + 1) == AddMonths(jump(i), 1)
    {
      ShortDayOneMore(c, i);
    }
    ShiftZero(c);
    StepsFollow(Valid(c), k, jump);
  }

  /** A sequence of dates that starts at `x` and advances one `setMonth` at a time is the sequence of steps from `x`. */
  lemma {:induction false} StepsFollow(x: JsDate, k: nat, jump: nat -> JsDate)
    requires jump(0) == x
    requires forall i :: 0 <= i < k ==> jump(i + 1) == AddMonths(jump(i), 1)
    ensures jump(k) == Step(x, k)
  {
    if k > 0 {
      StepsFollow(x, k - 1, jump);
      StepSucc(x, k - 1);
    }
  }
}
