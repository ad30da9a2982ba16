/** Proleptic Gregorian calendar dates as Python's `datetime.date` and the
    database's DATE type both use them: validity, order, the day before, the
    bounds of the current month computed with `date.replace`, the
    `%Y/%m/%d` rendering and the reading of such a literal back into a date. */
module Calendar {

  import opened Wrappers
  import opened Numbers
  import Text

  datatype Date = Date(year: nat, month: nat, day: nat)

  /** First and last day of a month, both inclusive. */
  datatype Bounds = Bounds(first: Date, last: Date)

  predicate IsLeap(y: nat)
  {
    y % 4 == 0 && (y % 100 != 0 || y % 400 == 0)
  }

  function DaysInMonth(y: nat, m: nat): (n: nat)
    requires 1 <= m <= 12
    ensures 28 <= n <= 31
  {
    if m == 2 then (if IsLeap(y) then 29 else 28)
    else if m == 4 || m == 6 || m == 9 || m == 11 then 30
    else 31
  }

  /** A date `datetime.date` can represent: years 1 to 9999. */
  predicate ValidDate(d: Date)
  {
    1 <= d.year <= 9999 && 1 <= d.month <= 12 && 1 <= d.day <= DaysInMonth(d.year, d.month)
  }

  /** Chronological order. */
  predicate LessEq(a: Date, b: Date)
  {
    a.year < b.year
    || (a.year == b.year && a.month < b.month)
    || (a.year == b.year && a.month == b.month && a.day <= b.day)
  }

  predicate Less(a: Date, b: Date)
  {
    LessEq(a, b) && a != b
  }

  /** `d.replace(month=m, day=day)`: the same year with the given month and
      day, or nothing where Python raises ValueError because the result
      is not a valid date. */
  function Replace(d: Date, m: nat, day: nat): (r: Option<Date>)
    ensures r.Some? ==> ValidDate(r.value) && r.value == Date(d.year, m, day)
    ensures r.None? ==> !ValidDate(Date(d.year, m, day))
  {
    if 1 <= d.year <= 9999 && 1 <= m <= 12 && 1 <= day <= DaysInMonth(d.year, m)
    then Some(Date(d.year, m, day))
    else None
  }

  /** `d - timedelta(days=1)`: a valid date earlier than `d`. */
  function PrevDay(d: Date): (p: Date)
    requires ValidDate(d) && d != Date(1, 1, 1)
    ensures ValidDate(p) && Less(p, d)
  {
    if d.day > 1 then Date(d.year, d.month, d.day - 1)
    else if d.month > 1 then Date(d.year, d.month - 1, DaysInMonth(d.year, d.month - 1))
    else Date(d.year - 1, 12, 31)
  }

  /** `PrevDay(d)` is the valid date immediately before `d`: no valid date
      lies strictly between them. */
  lemma PrevDayIsPredecessor(d: Date)
    requires ValidDate(d) && d != Date(1, 1, 1)
    ensures forall x :: ValidDate(x) && Less(PrevDay(d), x) ==> LessEq(d, x)
  {
  }

  /** The range queried by the monthly totals: the first of the month, and
      the day before the first of the next month, each obtained with
      `replace`. Nothing when the second `replace` fails, that is in
      December, where the month would become 13. */
  function MonthRange(today: Date): (r: Option<Bounds>)
    ensures r.None? <==> !(1 <= today.year <= 9999 && 1 <= today.month <= 11)
    ensures r.Some? ==> r.value.first == Date(today.year, today.month, 1)
    ensures r.Some? ==> r.value.last == Date(today.year, today.month, DaysInMonth(today.year, today.month))
  {
    match Replace(today, today.month, 1)
    case None => None
    case Some(first) =>
      match Replace(today, today.month + 1, 1)
      case None => None
      case Some(next) => Some(Bounds(first, PrevDay(next)))
  }

  /** For a valid date the range fails exactly in December; otherwise it
      runs from the first to the last day of that month. */
  lemma MonthRangeBounds(today: Date)
    requires ValidDate(today)
    ensures MonthRange(today).None? <==> today.month == 12
    ensures today.month != 12 ==>
      MonthRange(today) == Some(Bounds(Date(today.year, today.month, 1),
                                       Date(today.year, today.month, DaysInMonth(today.year, today.month))))
  {
  }

  /** A valid date lies in the range computed for `today` exactly when it
      has the same year and month as `today`. */
  lemma InMonthRange(today: Date, d: Date)
    requires ValidDate(today) && ValidDate(d) && today.month != 12
    ensures MonthRange(today).Some?
    ensures var b := MonthRange(today).value;
      LessEq(b.first, d) && LessEq(d, b.last) <==> d.year == today.year && d.month == today.month
  {
    MonthRangeBounds(today);
  }

  /** `d.strftime('%Y/%m/%d')`: four-digit year, two-digit month and day. */
  function FormatDate(d: Date): (s: string)
    ensures |s| == 10 && s[4] == '/' && s[7] == '/'
    ensures forall i :: 0 <= i < 10 && i != 4 && i != 7 ==> IsDigit(s[i])
  {
    Padded(d.year, 4) + "/" + Padded(d.month, 2) + "/" + Padded(d.day, 2)
  }

  /** How the database reads the text `Y/M/D` into a DATE: white space
      around it is skipped, the year has four digits, the month and the day
      one or two, and the three make a valid date. Nothing otherwise. */
  function DateOf(s: string): (r: Option<Date>)
    ensures r.Some? ==> ValidDate(r.value)
  {
    var p := Text.Split(Text.Trim(s), '/');
    if |p| == 3 && |p[0]| == 4 && 1 <= |p[1]| <= 2 && 1 <= |p[2]| <= 2
       && AllDigits(p[0]) && AllDigits(p[1]) && AllDigits(p[2])
    then
      var d := Date(ParseDigits(p[0]), ParseDigits(p[1]), ParseDigits(p[2]));
      if ValidDate(d) then Some(d) else None
    else None
  }

  /** A date rendered with `FormatDate` is read back by the database as the
      same date (for the four-digit years a clock gives). */
  lemma FormatDateRoundTrip(d: Date)
    ensures ValidDate(d) && d.year >= 1000 ==> DateOf(FormatDate(d)) == Some(d)
  {
    if ValidDate(d) && d.year >= 1000 {
      var y, m, dd := Padded(d.year, 4), Padded(d.month, 2), Padded(d.day, 2);
      var s := FormatDate(d);
      assert s == y + ['/'] + m + ['/'] + dd;
      assert !Text.IsSpace(s[0]) && !Text.IsSpace(s[9]);
      Text.TrimUnspaced(s);
      assert s == Text.Join([y, m, dd], '/') by {
        assert [y, m, dd][1..] == [m, dd];
        assert [m, dd][1..] == [dd];
        calc {
          Text.Join([y, m, dd], '/');
          y + ['/'] + Text.Join([m, dd], '/');
          y + ['/'] + (m + ['/'] + dd);
        }
      }
      forall i | 0 <= i < 3 ensures '/' !in [y, m, dd][i] {
        assert AllDigits([y, m, dd][i]);
      }
      Text.SplitJoin([y, m, dd], '/');
      ParsePadded(d.year, 4);
      ParsePadded(d.month, 2);
      ParsePadded(d.day, 2);
    }
  }
}
