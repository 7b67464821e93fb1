/** The deadline warnings shown under a task table: which tasks get one, and
    the whole hours and minutes each one reports. Times are whole seconds on
    the scale of `Calendar.Instant`; the current time is a parameter. */
module Deadlines {
  import opened Text
  import opened Calendar
  import opened Tasks

  /** A warning names the task and the time past or left, in whole hours and
      the minutes beyond them. */
  datatype Warning =
    | Overdue(title: string, hours: nat, minutes: nat)
    | Upcoming(title: string, hours: nat, minutes: nat)

  function Abs(d: int): (r: nat)
    ensures r == d || r == -d
  {
    if d < 0 then -d else d
  }

  /** Seconds from `now` to the task's deadline, when its date and time, joined
      by a space, parse as "%Y-%m-%d %H:%M"; negative once the deadline has passed. */
  function Remaining(t: Task, now: int): Option<int> {
    match ParseDeadline(t.date, t.time)
    case None => None
    case Some(deadline) => Some(SecondsUntil(deadline, now))
  }

  /** `(deadline - now).total_seconds()` for a parsed deadline. */
  function SecondsUntil(deadline: (Date, Clock), now: int): int
    requires ValidDate(deadline.0) && ValidClock(deadline.1)
  {
    Instant(deadline.0, deadline.1) - now
  }

  /** A task whose date and time each pass their own check, as every task the
      program stores does, has a deadline: its date at its time of day. */
  lemma {:induction false} RemainingOfValidFields(t: Task, now: int)
    requires IsDateText(t.date) && IsTimeText(t.time)
    ensures Remaining(t, now) == Some(SecondsUntil((ParseDate(t.date).value, ParseTime(t.time).value), now))
  {
    DeadlineOfValidFields(t.date, t.time);
  }

  /** The warning for a task with status `status` and title `title` whose
      deadline is `d` seconds away, `d` being `None` when the deadline does not
      parse. Only a task whose status is exactly the incomplete one and whose
      deadline parses gets one; an overdue deadline always does, an upcoming
      one once a whole minute is left; the hours and minutes are the magnitude
      of the difference measured down to whole minutes. */
  function Assess(status: string, title: string, d: Option<int>): (r: Option<Warning>)
    ensures r.Some? ==> status == Incomplete && d.Some? && r.value.title == title
    ensures r.Some? ==> (r.value.Overdue? <==> d.value < 0)
    ensures r.Some? ==> r.value.minutes < 60
    ensures r.Some? ==>
      var whole := r.value.hours * 3600 + r.value.minutes * 60;
      whole <= Abs(d.value) < whole + 60
    ensures r.None? <==> status != Incomplete || d.None? || 0 <= d.value < 60
  {
    if status != Incomplete then None
    else match d
      case None => None
      case Some(d) =>
        var m := Abs(d);
        var hours, minutes := m / 3600, (m % 3600) / 60;
        if d < 0 then Some(Overdue(title, hours, minutes))
        else if hours > 0 || minutes > 0 then Some(Upcoming(title, hours, minutes))
        else None
  }

  /** The warning for one task at time `now`, if any. */
  function Classify(t: Task, now: int): Option<Warning> {
    Assess(t.status, t.title, Remaining(t, now))
  }

  /** An incomplete task with a valid date and time is warned about once its deadline
      has passed, as overdue, and while a whole minute or more is left, as
      upcoming; in the last minute before its deadline it gets no warning. */
  lemma {:induction false} ClassifyValidFields(t: Task, now: int)
    requires IsDateText(t.date) && IsTimeText(t.time) && t.status == Incomplete
    ensures var due := Instant(ParseDate(t.date).value, ParseTime(t.time).value);
      && (Classify(t, now).None? <==> due - 60 < now <= due)
      && (Classify(t, now).Some? ==> (Classify(t, now).value.Overdue? <==> due < now))
  {
    RemainingOfValidFields(t, now);
  }

  function Emit(w: Option<Warning>): (r: seq<Warning>)
    ensures |r| <= 1
  {
    if w.Some? then [w.value] else []
  }

  /** The warnings for a list of tasks: at most one per task, in list order. */
  function Warnings(ts: seq<Task>, now: int): (r: seq<Warning>)
    ensures |r| <= |ts|
  {
    if ts == [] then [] else Warnings(ts[..|ts| - 1], now) + Emit(Classify(ts[|ts| - 1], now))
  }

  /** The warnings of two lists one after the other are those of each list in turn. */
  lemma {:induction false} WarningsConcat(a: seq<Task>, b: seq<Task>, now: int)
    ensures Warnings(a + b, now) == Warnings(a, now) + Warnings(b, now)
    decreases |b|
  {
    if b == [] {
      assert a + b == a;
    } else {
      var b' := b[..|b| - 1];
      assert (a + b)[..|a + b| - 1] == a + b';
      WarningsConcat(a, b', now);
    }
  }

  /** A list with no incomplete task gets no warnings at all. */
  lemma {:induction false} WarningsOnlyIncomplete(ts: seq<Task>, now: int)
    requires forall i :: 0 <= i < |ts| ==> ts[i].status != Incomplete
    ensures Warnings(ts, now) == []
    decreases |ts|
  {
    if ts != [] {
      WarningsOnlyIncomplete(ts[..|ts| - 1], now);
    }
  }

  /** Every warning is the one for some incomplete task of the list. */
  lemma {:induction false} WarningsComeFromTasks(ts: seq<Task>, now: int)
    ensures forall w :: w in Warnings(ts, now) ==>
      exists i :: 0 <= i < |ts| && ts[i].status == Incomplete && Classify(ts[i], now) == Some(w)
    decreases |ts|
  {
    if ts != [] {
      var front := ts[..|ts| - 1];
      WarningsComeFromTasks(front, now);
      forall w | w in Warnings(ts, now)
        ensures exists i :: 0 <= i < |ts| && ts[i].status == Incomplete && Classify(ts[i], now) == Some(w)
      {
        if w in Warnings(front, now) {
          var i :| 0 <= i < |front| && front[i].status == Incomplete && Classify(front[i], now) == Some(w);
          assert ts[i] == front[i];
        } else {
          assert Classify(ts[|ts| - 1], now) == Some(w);
        }
      }
    }
  }

  /** A deadline exactly `h` hours and `m` minutes away, at least a minute in
      all, is reported as upcoming in those terms. */
  lemma {:induction false} UpcomingIn(title: string, h: nat, m: nat)
    requires m < 60 && (h > 0 || m > 0)
    ensures Assess(Incomplete, title, Some(h * 3600 + m * 60)) == Some(Upcoming(title, h, m))
  {
    var w := Assess(Incomplete, title, Some(h * 3600 + m * 60)).value;
    SplitMinutes(h, m, w.hours, w.minutes);
  }

  /** A deadline passed `h` hours and `m` minutes ago, and any number of
      seconds short of the next minute, is reported as overdue in those terms. */
  lemma {:induction false} OverdueBy(title: string, h: nat, m: nat, s: nat)
    requires m < 60 && s < 60 && h * 3600 + m * 60 + s > 0
    ensures Assess(Incomplete, title, Some(-(h * 3600 + m * 60 + s))) == Some(Overdue(title, h, m))
  {
    var w := Assess(Incomplete, title, Some(-(h * 3600 + m * 60 + s))).value;
    SplitMinutes(h, m, w.hours, w.minutes);
  }

  /** Hours and minutes below 60 that fall in the same minute are the same. */
  lemma {:induction false} SplitMinutes(h: nat, m: nat, h': nat, m': nat)
    requires m < 60 && m' < 60
    requires h' * 3600 + m' * 60 < h * 3600 + m * 60 + 60
    requires h * 3600 + m * 60 < h' * 3600 + m' * 60 + 60
    ensures h == h' && m == m'
  {
    assert h' * 3600 < (h + 1) * 3600;
    assert h * 3600 < (h' + 1) * 3600;
  }

  /** An incomplete task due at noon on 1 January 2025, written "2025-01-01" and "12:00". */
  function NoonTask(title: string, subject: string, teacher: string): (t: Task)
    ensures t.status == Incomplete && t.title == title
  {
    Task(title, subject, teacher, "2025-01-01", "12:00", Incomplete)
  }

  /** Seen at ten that morning, that task is two hours from its deadline. */
  lemma {:induction false} NoonTaskAtTen(title: string, subject: string, teacher: string)
    ensures Classify(NoonTask(title, subject, teacher), Instant(Date(2025, 1, 1), Clock(10, 0)))
      == Some(Upcoming(title, 2, 0))
  {
    var t, now := NoonTask(title, subject, teacher), Instant(Date(2025, 1, 1), Clock(10, 0));
    NoonRemaining(t, now);
    assert SecondsUntil((Date(2025, 1, 1), Clock(12, 0)), now) == 7200;
    AssessByDifference(title, 7200);
  }

  /** Seen at two in the afternoon, it is two hours late. */
  lemma {:induction false} NoonTaskAtTwo(title: string, subject: string, teacher: string)
    ensures Classify(NoonTask(title, subject, teacher), Instant(Date(2025, 1, 1), Clock(14, 0)))
      == Some(Overdue(title, 2, 0))
  {
    var t, now := NoonTask(title, subject, teacher), Instant(Date(2025, 1, 1), Clock(14, 0));
    NoonRemaining(t, now);
    assert now == Instant(Date(2025, 1, 1), Clock(12, 0)) + 7200;
    assert SecondsUntil((Date(2025, 1, 1), Clock(12, 0)), now) == -7200;
    AssessByDifference(title, -7200);
    assert 7200 / 3600 == 2 && (7200 % 3600) / 60 == 0;
  }

  /** Seen half a minute before noon, it gets no warning. */
  lemma {:induction false} NoonTaskJustBefore(title: string, subject: string, teacher: string)
    ensures Classify(NoonTask(title, subject, teacher), Instant(Date(2025, 1, 1), Clock(12, 0)) - 30) == None
  {
    var t, now := NoonTask(title, subject, teacher), Instant(Date(2025, 1, 1), Clock(12, 0)) - 30;
    NoonRemaining(t, now);
    assert SecondsUntil((Date(2025, 1, 1), Clock(12, 0)), now) == 30;
    AssessByDifference(title, 30);
  }

  lemma {:induction false} NoonRemaining(t: Task, now: int)
    requires t.date == "2025-01-01" && t.time == "12:00"
    ensures Remaining(t, now) == Some(SecondsUntil((Date(2025, 1, 1), Clock(12, 0)), now))
  {
    NoonParses();
  }

  /** The texts of that deadline parse as noon on 1 January 2025. */
  lemma {:induction false} NoonParses()
    ensures ParseDeadline("2025-01-01", "12:00") == Some((Date(2025, 1, 1), Clock(12, 0)))
  {
    var day, noon := Date(2025, 1, 1), Clock(12, 0);
    assert DateText(day, Padded, Padded) == "2025-01-01";
    DateTextParses(day, Padded, Padded);
    assert ClockText(noon, Padded, Padded) == "12:00";
    ClockTextParses(noon, Padded, Padded);
    DeadlineOfValidFields("2025-01-01", "12:00");
  }

  /** The warning of an incomplete task, read off the difference alone. */
  lemma AssessByDifference(title: string, d: int)
    ensures d < 0 ==> Assess(Incomplete, title, Some(d)) == Some(Overdue(title, -d / 3600, (-d % 3600) / 60))
    ensures d >= 0 && (d / 3600 > 0 || (d % 3600) / 60 > 0) ==>
      Assess(Incomplete, title, Some(d)) == Some(Upcoming(title, d / 3600, (d % 3600) / 60))
    ensures d >= 0 && d / 3600 == 0 && (d % 3600) / 60 == 0 ==> Assess(Incomplete, title, Some(d)) == None
  {
  }

  /** `show_deadline_warnings`: the `for` loop that collects the warnings. */
  method ShowDeadlineWarnings(tasks: seq<Task>, now: int) returns (warnings: seq<Warning>)
    ensures warnings == Warnings(tasks, now)
  {
    warnings := [];
    for i := 0 to |tasks|
      invariant warnings == Warnings(tasks[..i], now)
    {
      var task := tasks[i];
      assert tasks[..i + 1][..i] == tasks[..i];
      ghost var before := warnings;
      if task.status == Incomplete {
        var deadline := ParseDeadline(task.date, task.time);
        if deadline.Some? {
          var diff := SecondsUntil(deadline.value, now);
          assert Remaining(task, now) == Some(diff);
          AssessByDifference(task.title, diff);
          if diff < 0 {
            var hours := -diff / 3600;
            var minutes := (-diff % 3600) / 60;
            warnings := warnings + [Overdue(task.title, hours, minutes)];
          } else {
            var hours := diff / 3600;
            var minutes := (diff % 3600) / 60;
            if hours > 0 || minutes > 0 {
              warnings := warnings + [Upcoming(task.title, hours, minutes)];
            }
          }
        }
      }
      assert warnings == before + Emit(Classify(task, now));
    }
    assert tasks[..|tasks|] == tasks;
  }
}
