/** The date and time checks of the to-do list: `datetime.strptime` with the
    formats "%Y-%m-%d", "%H:%M" and, for deadlines, "%Y-%m-%d %H:%M", and the
    arithmetic of naive `datetime` values on the proleptic Gregorian calendar. */
module Calendar {
  import opened Text

  datatype Date = Date(year: int, month: int, day: int)
  datatype Clock = Clock(hour: int, minute: int)

  predicate IsLeapYear(y: int) {
    y % 4 == 0 && (y % 100 != 0 || y % 400 == 0)
  }

  function DaysInMonth(y: int, m: int): (n: int)
    requires 1 <= m <= 12
    ensures 28 <= n <= 31
    ensures n == 29 <==> m == 2 && IsLeapYear(y)
  {
    if m == 2 then (if IsLeapYear(y) then 29 else 28)
    else if m == 4 || m == 6 || m == 9 || m == 11 then 30
    else 31
  }

  /** What `datetime.date` accepts: years 1 to 9999 and a day that exists in its month. */
  predicate ValidDate(d: Date) {
    1 <= d.year <= 9999 && 1 <= d.month <= 12 && 1 <= d.day <= DaysInMonth(d.year, d.month)
  }

  predicate ValidClock(c: Clock) {
    0 <= c.hour <= 23 && 0 <= c.minute <= 59
  }

  // ---------------------------------------------------------------------------
  // The fields `strptime` matches. Each recogniser is the regular expression the
  // directive stands for: %Y is four digits, %m is 1[0-2]|0[1-9]|[1-9],
  // %d is 3[01]|[12]\d|0[1-9]|[1-9]| [1-9] (a single-digit day may follow a
  // space), %H is 2[0-3]|[0-1]\d|\d and %M is [0-5]\d|\d.
  // ---------------------------------------------------------------------------

  predicate YearField(t: string) {
    |t| == 4 && AllDigits(t)
  }

  predicate MonthField(t: string) {
    (|t| == 1 && '1' <= t[0] <= '9')
    || (|t| == 2 && ((t[0] == '1' && '0' <= t[1] <= '2') || (t[0] == '0' && '1' <= t[1] <= '9')))
  }

  predicate DayField(t: string) {
    (|t| == 1 && '1' <= t[0] <= '9')
    || (|t| == 2 && t[0] == ' ' && '1' <= t[1] <= '9')
    || (|t| == 2 && ((t[0] == '3' && '0' <= t[1] <= '1')
                     || ('1' <= t[0] <= '2' && IsDigit(t[1]))
                     || (t[0] == '0' && '1' <= t[1] <= '9')))
  }

  predicate HourField(t: string) {
    (|t| == 1 && IsDigit(t[0]))
    || (|t| == 2 && ((t[0] == '2' && '0' <= t[1] <= '3') || ('0' <= t[0] <= '1' && IsDigit(t[1]))))
  }

  predicate MinuteField(t: string) {
    (|t| == 1 && IsDigit(t[0])) || (|t| == 2 && '0' <= t[0] <= '5' && IsDigit(t[1]))
  }

  /** One or two digits, the first of which may be a space: the shapes every
      one- or two-character field above has. */
  predicate ShortField(t: string) {
    (|t| == 1 && IsDigit(t[0])) || (|t| == 2 && (IsDigit(t[0]) || t[0] == ' ') && IsDigit(t[1]))
  }

  /** `int(t)` of a matched one- or two-character field. */
  function FieldValue(t: string): (n: nat)
    requires ShortField(t)
    ensures n < 100
  {
    if |t| == 1 then DigitValue(t[0])
    else if t[0] == ' ' then DigitValue(t[1])
    else 10 * DigitValue(t[0]) + DigitValue(t[1])
  }

  /** `int(t)` of a four-digit year, read as two pairs of digits. */
  function YearValue(t: string): (n: nat)
    requires YearField(t)
    ensures n <= 9999
  {
    100 * FieldValue(t[..2]) + FieldValue(t[2..])
  }

  lemma MonthFieldValue(t: string)
    requires MonthField(t)
    ensures ShortField(t) && 1 <= FieldValue(t) <= 12
  {
  }

  lemma DayFieldValue(t: string)
    requires DayField(t)
    ensures ShortField(t) && 1 <= FieldValue(t) <= 31
  {
  }

  lemma HourFieldValue(t: string)
    requires HourField(t)
    ensures ShortField(t) && FieldValue(t) <= 23
  {
  }

  lemma MinuteFieldValue(t: string)
    requires MinuteField(t)
    ensures ShortField(t) && FieldValue(t) <= 59
  {
  }

  // ---------------------------------------------------------------------------
  // Splitting the text
  // ---------------------------------------------------------------------------

  /** The index of the first `c` in `s`, or `|s|` when there is none. */
  function Find(s: string, c: char): (i: nat)
    ensures i <= |s|
    ensures forall k :: 0 <= k < i ==> s[k] != c
    ensures i < |s| ==> s[i] == c
  {
    if s == [] || s[0] == c then 0 else 1 + Find(s[1..], c)
  }

  /** The length of the run of digits at the front of `s`. */
  function DigitRun(s: string): (i: nat)
    ensures i <= |s|
    ensures forall k :: 0 <= k < i ==> IsDigit(s[k])
    ensures i < |s| ==> !IsDigit(s[i])
  {
    if s == [] || !IsDigit(s[0]) then 0 else 1 + DigitRun(s[1..])
  }

  /** The `datetime.date` constructor's range check. */
  function MakeDate(y: int, m: int, d: int): Option<Date> {
    if ValidDate(Date(y, m, d)) then Some(Date(y, m, d)) else None
  }

  /** The year, the month and what follows the second '-', for a text that
      starts with four digits and '-'. The month ends at the first '-' after
      the year, since no month contains one. */
  function SplitDate(s: string): Option<(string, string, string)> {
    if |s| < 5 || !YearField(s[..4]) || s[4] != '-' then None
    else
      var rest := s[5..];
      var i := Find(rest, '-');
      if i == |rest| then None else Some((s[..4], rest[..i], rest[i + 1..]))
  }

  /** The date the three fields denote, when each matches and the date exists. */
  function FieldsDate(yt: string, mt: string, dt: string): Option<Date> {
    if YearField(yt) && MonthField(mt) && DayField(dt) then
      MonthFieldValue(mt);
      DayFieldValue(dt);
      MakeDate(YearValue(yt), FieldValue(mt), FieldValue(dt))
    else None
  }

  /** `datetime.strptime(s, "%Y-%m-%d")`; `None` stands for the `ValueError`.
      The day must use up the rest of the text. */
  function ParseDate(s: string): (r: Option<Date>)
    ensures r.Some? ==> ValidDate(r.value)
  {
    match SplitDate(s)
    case None => None
    case Some((yt, mt, dt)) => FieldsDate(yt, mt, dt)
  }

  /** `datetime.strptime(s, "%H:%M")`; `None` stands for the `ValueError`. No
      hour contains ':', so the hour ends at the first one. */
  function ParseTime(s: string): (r: Option<Clock>)
    ensures r.Some? ==> ValidClock(r.value)
  {
    var i := Find(s, ':');
    if i == |s| then None
    else
      var ht, mt := s[..i], s[i + 1..];
      if HourField(ht) && MinuteField(mt) then
        HourFieldValue(ht);
        MinuteFieldValue(mt);
        Some(Clock(FieldValue(ht), FieldValue(mt)))
      else None
  }

  /** The text of the day and the time of day in what follows the second '-'
      of "%Y-%m-%d %H:%M". The space of the format matches any non-empty run
      of whitespace, and the day ends where that run begins: it is a space
      and one digit, or else a run of digits. */
  function SplitDayTime(u: string): Option<(string, Clock)> {
    var dl := if u != [] && u[0] == ' ' then 2 else DigitRun(u);
    if dl > |u| then None
    else
      var v := u[dl..];
      var w := LeadingBlanks(v, StrBlanks);
      if w == 0 then None
      else
        match ParseTime(v[w..])
        case None => None
        case Some(c) => Some((u[..dl], c))
  }

  /** `datetime.strptime(s, "%Y-%m-%d %H:%M")`; `None` stands for the `ValueError`. */
  function ParseDateTime(s: string): (r: Option<(Date, Clock)>)
    ensures r.Some? ==> ValidDate(r.value.0) && ValidClock(r.value.1)
  {
    match SplitDate(s)
    case None => None
    case Some((yt, mt, u)) =>
      match SplitDayTime(u)
      case None => None
      case Some((dt, c)) =>
        match FieldsDate(yt, mt, dt)
        case None => None
        case Some(d) => Some((d, c))
  }

  /** The deadline of a task: its date and time joined by one space. */
  function ParseDeadline(date: string, time: string): (r: Option<(Date, Clock)>)
    ensures r.Some? ==> ValidDate(r.value.0) && ValidClock(r.value.1)
  {
    ParseDateTime(date + " " + time)
  }

  // ---------------------------------------------------------------------------
  // Writing dates and times back out, in the forms `strptime` accepts
  // ---------------------------------------------------------------------------

  /** How a one- or two-digit field is written: with a leading zero ("05"),
      without one ("5"), or after a space (" 5"). Numbers from 10 up are
      written with two digits whatever the width. */
  datatype Width = Padded | Unpadded | Spaced

  function FieldText(n: nat, w: Width): (t: string)
    requires n < 100
    ensures ShortField(t) && FieldValue(t) == n
  {
    if n < 10 && w == Unpadded then [DigitChar(n)]
    else if n < 10 && w == Spaced then [' ', DigitChar(n)]
    else [DigitChar(n / 10), DigitChar(n % 10)]
  }

  function YearText(y: nat): (t: string)
    requires y <= 9999
    ensures YearField(t) && YearValue(t) == y
  {
    var hi, lo := FieldText(y / 100, Padded), FieldText(y % 100, Padded);
    assert (hi + lo)[..2] == hi && (hi + lo)[2..] == lo;
    hi + lo
  }

  function DateText(d: Date, mw: Width, dw: Width): string
    requires ValidDate(d)
  {
    YearText(d.year) + "-" + FieldText(d.month, mw) + "-" + FieldText(d.day, dw)
  }

  function ClockText(c: Clock, hw: Width, mw: Width): string
    requires ValidClock(c)
  {
    FieldText(c.hour, hw) + ":" + FieldText(c.minute, mw)
  }

  /** The width a short field is written in. */
  function WidthOf(t: string): Width
    requires ShortField(t)
  {
    if |t| == 1 then Unpadded else if t[0] == ' ' then Spaced else Padded
  }

  /** Every short field is the text of its own value, in its own width. */
  lemma {:induction false} FieldTextOfValue(t: string)
    requires ShortField(t)
    ensures FieldText(FieldValue(t), WidthOf(t)) == t
  {
    var n := FieldValue(t);
    if |t| == 2 && t[0] != ' ' {
      assert n / 10 == DigitValue(t[0]) && n % 10 == DigitValue(t[1]);
      assert DigitChar(DigitValue(t[0])) == t[0];
    }
  }

  lemma {:induction false} YearTextOfValue(t: string)
    requires YearField(t)
    ensures YearText(YearValue(t)) == t
  {
    var hi, lo := t[..2], t[2..];
    var a, b := FieldValue(hi), FieldValue(lo);
    assert YearValue(t) == 100 * a + b;
    assert (100 * a + b) / 100 == a && (100 * a + b) % 100 == b;
    assert WidthOf(hi) == Padded && WidthOf(lo) == Padded;
    FieldTextOfValue(hi);
    FieldTextOfValue(lo);
    assert YearText(100 * a + b) == FieldText(a, Padded) + FieldText(b, Padded);
    assert t == hi + lo;
  }

  /** A field whose first character is not '-' (or ':') is found whole by the split. */
  lemma {:induction false} FindAfter(a: string, c: char, b: string)
    requires forall k :: 0 <= k < |a| ==> a[k] != c
    ensures Find(a + [c] + b, c) == |a|
    ensures (a + [c] + b)[..|a|] == a && (a + [c] + b)[|a| + 1..] == b
  {
    var s := a + [c] + b;
    assert s[|a|] == c;
  }

  /** Every date in range is accepted, with the month written with or without
      its leading zero and the day with a leading zero, without one, or after a space. */
  lemma {:induction false} DateTextParses(d: Date, mw: Width, dw: Width)
    requires ValidDate(d) && mw != Spaced
    ensures ParseDate(DateText(d, mw, dw)) == Some(d)
  {
    var yt, mt, dt := YearText(d.year), FieldText(d.month, mw), FieldText(d.day, dw);
    SplitDateText(yt, mt, dt);
    assert MonthField(mt) && DayField(dt);
    assert FieldsDate(yt, mt, dt) == Some(d);
  }

  lemma {:induction false} SplitDateText(yt: string, mt: string, dt: string)
    requires YearField(yt) && ShortField(mt)
    ensures SplitDate(yt + "-" + mt + "-" + dt) == Some((yt, mt, dt))
  {
    var s := yt + "-" + mt + "-" + dt;
    assert s == yt + ("-" + mt + "-" + dt);
    assert s[..4] == yt && s[4] == '-';
    assert s[5..] == mt + ['-'] + dt;
    FindAfter(mt, '-', dt);
  }

  /** And nothing else is: every accepted text is a date in range written in one of those forms. */
  lemma {:induction false} ParsedDateHasText(s: string)
    requires ParseDate(s).Some?
    ensures exists mw: Width, dw: Width :: mw != Spaced && s == DateText(ParseDate(s).value, mw, dw)
  {
    var d := ParseDate(s).value;
    var (yt, mt, dt) := SplitDate(s).value;
    MonthFieldValue(mt);
    DayFieldValue(dt);
    YearTextOfValue(yt);
    FieldTextOfValue(mt);
    FieldTextOfValue(dt);
    SplitDateIsPrefix(s);
    assert s == DateText(d, WidthOf(mt), WidthOf(dt));
  }

  /** A text that splits is its three parts joined by '-'. */
  lemma {:induction false} SplitDateIsPrefix(s: string)
    requires SplitDate(s).Some?
    ensures var (yt, mt, u) := SplitDate(s).value; s == yt + "-" + mt + "-" + u
  {
    var rest := s[5..];
    var i := Find(rest, '-');
    assert SplitDate(s) == Some((s[..4], rest[..i], rest[i + 1..]));
    SplitAt(rest, i);
    SplitAt(s, 4);
    assert s == s[..4] + ("-" + (rest[..i] + "-" + rest[i + 1..]));
  }

  /** A text is what comes before position `k`, the character there, and what follows. */
  lemma SplitAt(s: string, k: nat)
    requires k < |s|
    ensures s == s[..k] + [s[k]] + s[k + 1..]
  {
    assert s[..k] + s[k..] == s;
    assert s[k..] == [s[k]] + s[k + 1..];
  }

  /** Text after the day does not change how the year and month split off. */
  lemma {:induction false} SplitDateExtends(s: string, x: string)
    requires SplitDate(s).Some?
    ensures var (yt, mt, u) := SplitDate(s).value; SplitDate(s + x) == Some((yt, mt, u + x))
  {
    var (yt, mt, u) := SplitDate(s).value;
    SplitDateIsPrefix(s);
    var rest := s[5..];
    assert forall k :: 0 <= k < |mt| ==> mt[k] != '-';
    assert s + x == yt + "-" + mt + "-" + (u + x);
    SplitDateTextAny(yt, mt, u + x);
  }

  lemma {:induction false} SplitDateTextAny(yt: string, mt: string, u: string)
    requires YearField(yt) && forall k :: 0 <= k < |mt| ==> mt[k] != '-'
    ensures SplitDate(yt + "-" + mt + "-" + u) == Some((yt, mt, u))
  {
    var s := yt + "-" + mt + "-" + u;
    assert s == yt + ("-" + mt + "-" + u);
    assert s[..4] == yt && s[4] == '-';
    assert s[5..] == mt + ['-'] + u;
    FindAfter(mt, '-', u);
  }

  /** Every time of day is accepted, each field with or without its leading zero. */
  lemma {:induction false} ClockTextParses(c: Clock, hw: Width, mw: Width)
    requires ValidClock(c) && hw != Spaced && mw != Spaced
    ensures ParseTime(ClockText(c, hw, mw)) == Some(c)
  {
    var ht, mt := FieldText(c.hour, hw), FieldText(c.minute, mw);
    assert ClockText(c, hw, mw) == ht + [':'] + mt;
    FindAfter(ht, ':', mt);
  }

  /** And nothing else is. */
  lemma {:induction false} ParsedClockHasText(s: string)
    requires ParseTime(s).Some?
    ensures exists hw: Width, mw: Width :: hw != Spaced && mw != Spaced && s == ClockText(ParseTime(s).value, hw, mw)
  {
    var c := ParseTime(s).value;
    var i := Find(s, ':');
    var ht, mt := s[..i], s[i + 1..];
    HourFieldValue(ht);
    MinuteFieldValue(mt);
    FieldTextOfValue(ht);
    FieldTextOfValue(mt);
    assert s == ht + ":" + mt;
    assert s == ClockText(c, WidthOf(ht), WidthOf(mt));
  }

  /** A date and a time that each pass their own check, joined by a space,
      pass the deadline check together and denote that date at that time. */
  lemma {:induction false} DeadlineOfValidFields(date: string, time: string)
    requires ParseDate(date).Some? && ParseTime(time).Some?
    ensures ParseDeadline(date, time) == Some((ParseDate(date).value, ParseTime(time).value))
  {
    var parts := SplitDate(date).value;
    var yt, mt, dt := parts.0, parts.1, parts.2;
    assert FieldsDate(yt, mt, dt) == ParseDate(date);
    var s := date + " " + time;
    assert s == date + (" " + time);
    SplitDateExtends(date, " " + time);
    assert dt + " " + time == dt + (" " + time);
    assert SplitDate(s) == Some((yt, mt, dt + " " + time));
    DayTimeOfValidFields(dt, time);
    assert ParseDateTime(s) == Some((ParseDate(date).value, ParseTime(time).value));
  }

  /** A day field, a space and a valid time split back into the day and that time. */
  lemma {:induction false} DayTimeOfValidFields(dt: string, time: string)
    requires DayField(dt) && ParseTime(time).Some?
    ensures SplitDayTime(dt + " " + time) == Some((dt, ParseTime(time).value))
  {
    var u := dt + " " + time;
    DayEndsAtBlank(dt, " " + time);
    assert u == dt + (" " + time);
    assert u[..|dt|] == dt && u[|dt|..] == " " + time;
    OneBlankBeforeTime(time);
    assert (" " + time)[1..] == time;
  }

  /** The day of a deadline text ends where the whitespace after it begins. */
  lemma {:induction false} DayEndsAtBlank(dt: string, x: string)
    requires DayField(dt) && x != [] && x[0] == ' '
    ensures var u := dt + x; (if u != [] && u[0] == ' ' then 2 else DigitRun(u)) == |dt|
  {
    var u := dt + x;
    assert u[0] == dt[0];
    if dt[0] != ' ' {
      assert u[|dt|] == ' ';
      assert forall k :: 0 <= k < |dt| ==> u[k] == dt[k];
    }
  }

  /** A valid time starts with a digit, so one space before it is the whole blank run. */
  lemma {:induction false} OneBlankBeforeTime(time: string)
    requires ParseTime(time).Some?
    ensures LeadingBlanks(" " + time, StrBlanks) == 1
  {
    var j := Find(time, ':');
    HourFieldValue(time[..j]);
    assert IsDigit(time[0]);
    assert (" " + time)[1..] == time;
    assert LeadingBlanks(time, StrBlanks) == 0;
  }

  // ---------------------------------------------------------------------------
  // Instants: naive `datetime` values as whole seconds
  // ---------------------------------------------------------------------------

  function DaysBeforeYear(y: int): int
    requires y >= 1
  {
    var p := y - 1;
    p * 365 + p / 4 - p / 100 + p / 400
  }

  function DaysBeforeMonth(y: int, m: int): int
    requires 1 <= m <= 12
  {
    if m == 1 then 0 else DaysBeforeMonth(y, m - 1) + DaysInMonth(y, m - 1)
  }

  /** `date.toordinal()`: 1 for 1 January of year 1. */
  function Ordinal(d: Date): int
    requires ValidDate(d)
  {
    DaysBeforeYear(d.year) + DaysBeforeMonth(d.year, d.month) + d.day
  }

  /** A date and time as seconds since midnight at the start of 1 January of year 1;
      the difference of two such numbers is what `total_seconds()` gives for the
      difference of the two naive datetimes. */
  function Instant(d: Date, c: Clock): int
    requires ValidDate(d) && ValidClock(c)
  {
    (Ordinal(d) - 1) * 86400 + c.hour * 3600 + c.minute * 60
  }

  /** Each year counts at least as many days before it as the one before. */
  lemma {:induction false} DaysBeforeYearGrows(y: int, z: int)
    requires 1 <= y <= z
    ensures DaysBeforeYear(y) <= DaysBeforeYear(z)
    decreases z - y
  {
    if y < z {
      DaysBeforeNextYear(y);
      DaysBeforeYearGrows(y + 1, z);
    }
  }

  /** The days before a month and the days of that month fit in the year. */
  lemma {:induction false} DaysBeforeMonthFits(y: int, m: int)
    requires 1 <= m <= 12
    ensures 31 * (m - 1) >= DaysBeforeMonth(y, m) >= 28 * (m - 1)
    ensures DaysBeforeMonth(y, m) + DaysInMonth(y, m) <= DaysBeforeMonth(y, 12) + 31
    decreases 12 - m
  {
    if m < 12 {
      DaysBeforeMonthFits(y, m + 1);
    }
    if m > 1 {
      DaysBeforeMonthLow(y, m - 1);
    }
  }

  lemma {:induction false} DaysBeforeMonthLow(y: int, m: int)
    requires 1 <= m <= 12
    ensures 31 * (m - 1) >= DaysBeforeMonth(y, m) >= 28 * (m - 1)
    decreases m
  {
    if m > 1 {
      DaysBeforeMonthLow(y, m - 1);
    }
  }

  /** `date.toordinal()` runs from 1, for 1 January of year 1 and that day
      only, to 3652059, for 31 December 9999. */
  lemma {:induction false} OrdinalRange(d: Date)
    requires ValidDate(d)
    ensures 1 <= Ordinal(d) <= 3652059
    ensures Ordinal(d) == 1 <==> d == Date(1, 1, 1)
    ensures Ordinal(Date(9999, 12, 31)) == 3652059
  {
    DaysBeforeYearGrows(1, d.year);
    DaysBeforeYearGrows(d.year, 9999);
    DaysBeforeMonthFits(d.year, d.month);
    YearLength(d.year);
    YearLength(9999);
    if d.year > 1 {
      DaysBeforeYearGrows(2, d.year);
    }
  }

  /** An instant is a whole number of days, the ordinal less one, and the
      seconds since that day's midnight, which are fewer than a day's. */
  lemma {:induction false} InstantParts(d: Date, c: Clock)
    requires ValidDate(d) && ValidClock(c)
    ensures 0 <= Instant(d, c)
    ensures Instant(d, c) / 86400 == Ordinal(d) - 1
    ensures Instant(d, c) % 86400 == c.hour * 3600 + c.minute * 60
  {
    OrdinalRange(d);
    var q, r := Ordinal(d) - 1, c.hour * 3600 + c.minute * 60;
    assert 0 <= r < 86400;
    assert Instant(d, c) == q * 86400 + r;
  }

  /** The calendar day after `d`. */
  function NextDay(d: Date): (r: Date)
    requires ValidDate(d) && d.year < 9999
    ensures ValidDate(r)
  {
    if d.day < DaysInMonth(d.year, d.month) then Date(d.year, d.month, d.day + 1)
    else if d.month < 12 then Date(d.year, d.month + 1, 1)
    else Date(d.year + 1, 1, 1)
  }

  /** The months of a year add up to 365 days, or 366 in a leap year. */
  lemma {:induction false} YearLength(y: int)
    ensures DaysBeforeMonth(y, 12) + 31 == if IsLeapYear(y) then 366 else 365
  {
    assert DaysBeforeMonth(y, 2) == 31;
    assert DaysBeforeMonth(y, 3) == 31 + DaysInMonth(y, 2);
    assert DaysBeforeMonth(y, 4) == 62 + DaysInMonth(y, 2);
    assert DaysBeforeMonth(y, 5) == 92 + DaysInMonth(y, 2);
    assert DaysBeforeMonth(y, 6) == 123 + DaysInMonth(y, 2);
    assert DaysBeforeMonth(y, 7) == 153 + DaysInMonth(y, 2);
    assert DaysBeforeMonth(y, 8) == 184 + DaysInMonth(y, 2);
    assert DaysBeforeMonth(y, 9) == 215 + DaysInMonth(y, 2);
    assert DaysBeforeMonth(y, 10) == 245 + DaysInMonth(y, 2);
    assert DaysBeforeMonth(y, 11) == 276 + DaysInMonth(y, 2);
    assert DaysBeforeMonth(y, 12) == 306 + DaysInMonth(y, 2);
  }

  /** The Gregorian leap rule and the day count of the years agree. */
  lemma {:induction false} DaysBeforeNextYear(y: int)
    requires y >= 1
    ensures DaysBeforeYear(y + 1) == DaysBeforeYear(y) + if IsLeapYear(y) then 366 else 365
  {
    var p := y - 1;
    assert DaysBeforeYear(y) == p * 365 + p / 4 - p / 100 + p / 400;
    assert DaysBeforeYear(y + 1) == p * 365 + 365 + y / 4 - y / 100 + y / 400;
    QuotientStep(y, 4);
    QuotientStep(y, 100);
    QuotientStep(y, 400);
    DivisibleChain(y);
  }

  /** A multiple of 400 is one of 100, and a multiple of 100 is one of 4. */
  lemma {:induction false} DivisibleChain(y: int)
    ensures y % 400 == 0 ==> y % 100 == 0
    ensures y % 100 == 0 ==> y % 4 == 0
  {
    if y % 400 == 0 {
      var k := 4 * (y / 400);
      assert y == 100 * k;
      MultipleMod(k);
    }
    if y % 100 == 0 {
      var k := 25 * (y / 100);
      assert y == 4 * k;
      MultipleMod(k);
    }
  }

  lemma MultipleMod(k: int)
    ensures (4 * k) % 4 == 0 && (100 * k) % 100 == 0
  {
  }

  /** Counting up by one passes a multiple of `n` exactly when it lands on one. */
  lemma {:induction false} QuotientStep(y: int, n: int)
    requires n == 4 || n == 100 || n == 400
    ensures y / n - (y - 1) / n == if y % n == 0 then 1 else 0
  {
    if n == 4 {
      assert y / 4 - (y - 1) / 4 == if y % 4 == 0 then 1 else 0;
    } else if n == 100 {
      assert y / 100 - (y - 1) / 100 == if y % 100 == 0 then 1 else 0;
    } else {
      assert y / 400 - (y - 1) / 400 == if y % 400 == 0 then 1 else 0;
    }
  }

  /** Consecutive calendar days have consecutive ordinals, so the ordinal
      counts days without gaps or repeats. */
  lemma {:induction false} OrdinalOfNextDay(d: Date)
    requires ValidDate(d) && d.year < 9999
    ensures Ordinal(NextDay(d)) == Ordinal(d) + 1
  {
    if d.day == DaysInMonth(d.year, d.month) && d.month == 12 {
      YearLength(d.year);
      DaysBeforeNextYear(d.year);
    }
  }
}
