/** What the task tables show: numbered rows whose title, subject and teacher
    are cut to the width of their columns, the deadline as the date and the
    time joined by a space, and the deadline warnings under the table. The
    padding of the columns and the console output itself are not modelled. */
module Presenter {
  import opened Text
  import opened Tasks
  import opened Deadlines

  /** The longest title, subject and teacher a row shows. */
  const TitleWidth: nat := 23
  const SubjectWidth: nat := 13
  const TeacherWidth: nat := 18

  /** One row of the table of all tasks. */
  datatype Row = Row(number: nat, title: string, subject: string, teacher: string,
                     deadline: string, status: string)

  /** One row of the table of one subject's tasks, which has no subject column. */
  datatype SubjectRow = SubjectRow(number: nat, title: string, teacher: string,
                                   deadline: string, status: string)

  /** The text of the deadline column. */
  function DeadlineText(t: Task): (s: string)
    ensures |s| == |t.date| + 1 + |t.time|
    ensures s[..|t.date|] == t.date && s[|t.date|] == ' ' && s[|t.date| + 1..] == t.time
  {
    t.date + " " + t.time
  }

  /** The row of task `t` shown with number `number`. */
  function TaskRow(number: nat, t: Task): (r: Row)
    ensures r.number == number && r.status == t.status && r.deadline == DeadlineText(t)
    ensures Shows(r.title, t.title, TitleWidth)
    ensures Shows(r.subject, t.subject, SubjectWidth)
    ensures Shows(r.teacher, t.teacher, TeacherWidth)
  {
    Row(number, Cut(t.title, TitleWidth), Cut(t.subject, SubjectWidth),
        Cut(t.teacher, TeacherWidth), DeadlineText(t), t.status)
  }

  /** `shown` is what a column `width` characters wide shows of `s`: a prefix
      of it no longer than the column, and all of it when it fits. */
  predicate Shows(shown: string, s: string, width: nat) {
    shown <= s && |shown| <= width && (|s| <= width ==> shown == s)
      && (|s| > width ==> |shown| == width)
  }

  /** Only one text is shown for a given text in a given column. */
  lemma {:induction false} ShowsUnique(a: string, b: string, s: string, width: nat)
    requires Shows(a, s, width) && Shows(b, s, width)
    ensures a == b
  {
    assert |a| == |b|;
    assert a == s[..|a|] && b == s[..|b|];
  }

  /** The row of a task without its subject column. */
  function WithoutSubject(r: Row): (sr: SubjectRow)
    ensures sr.number == r.number && sr.title == r.title && sr.teacher == r.teacher
    ensures sr.deadline == r.deadline && sr.status == r.status
  {
    SubjectRow(r.number, r.title, r.teacher, r.deadline, r.status)
  }

  /** The rows of a table, numbered from 1 in list order. */
  function Table(ts: seq<Task>): (rows: seq<Row>)
    ensures |rows| == |ts|
    ensures forall i :: 0 <= i < |ts| ==> rows[i] == TaskRow(i + 1, ts[i])
  {
    if ts == [] then [] else Table(ts[..|ts| - 1]) + [TaskRow(|ts|, ts[|ts| - 1])]
  }

  /** The rows of a one-subject table: the rows of the full table without
      their subject column. */
  function SubjectTable(ts: seq<Task>): (rows: seq<SubjectRow>)
    ensures |rows| == |ts|
    ensures forall i :: 0 <= i < |ts| ==> rows[i] == WithoutSubject(TaskRow(i + 1, ts[i]))
  {
    if ts == [] then [] else SubjectTable(ts[..|ts| - 1]) + [WithoutSubject(TaskRow(|ts|, ts[|ts| - 1]))]
  }

  /** `view_all_tasks`: a notice for an empty list, otherwise the table and the warnings. */
  datatype Screen = NoTasksNotice | Listing(rows: seq<Row>, warnings: seq<Warning>)

  function ViewAll(ts: seq<Task>, now: int): (s: Screen)
    ensures s.NoTasksNotice? <==> ts == []
    ensures s.Listing? ==> |s.rows| == |ts| && s.warnings == Warnings(ts, now)
  {
    if ts == [] then NoTasksNotice else Listing(Table(ts), Warnings(ts, now))
  }

  /** Every row of the listing shows the task in the same place of the list. */
  lemma {:induction false} ListingShowsEveryTask(ts: seq<Task>, now: int, i: nat)
    requires i < |ts|
    ensures ViewAll(ts, now).Listing?
    ensures var r := ViewAll(ts, now).rows[i];
      r.number == i + 1 && r.status == ts[i].status && r.deadline == DeadlineText(ts[i])
      && Shows(r.title, ts[i].title, TitleWidth) && Shows(r.subject, ts[i].subject, SubjectWidth)
      && Shows(r.teacher, ts[i].teacher, TeacherWidth)
  {
    var r := Table(ts)[i];
    assert r == TaskRow(i + 1, ts[i]);
  }
}
