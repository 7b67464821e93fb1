/** The dialogs that change the list of tasks: add, edit, delete and toggle.
    The list is the object they share; what the user types is passed in. The
    ghost field `saved` is the list as last written to the data file. */
module Operations {
  import opened Text
  import opened Calendar
  import opened Tasks

  /** The two checked answers of the add dialog. */
  datatype Format = DateFormat | TimeFormat

  /** `strptime` with the format's pattern accepts the stripped answer `s`. */
  predicate Accepts(f: Format, s: string) {
    match f
    case DateFormat => IsDateText(s)
    case TimeFormat => IsTimeText(s)
  }

  /** Some answer in the sequence, once stripped, is accepted. */
  predicate SomeAccepted(answers: seq<string>, f: Format) {
    exists i :: 0 <= i < |answers| && Accepts(f, Strip(answers[i]))
  }

  /** The position of the first accepted answer: the one the re-prompting loop stops at. */
  function FirstAccepted(answers: seq<string>, f: Format): (i: nat)
    requires SomeAccepted(answers, f)
    ensures i < |answers| && Accepts(f, Strip(answers[i]))
    ensures forall j :: 0 <= j < i ==> !Accepts(f, Strip(answers[j]))
  {
    AcceptedFrom(answers, f, 0)
  }

  /** The position of the first accepted answer from position `k` on. */
  function AcceptedFrom(answers: seq<string>, f: Format, k: nat): (i: nat)
    requires exists i :: k <= i < |answers| && Accepts(f, Strip(answers[i]))
    ensures k <= i < |answers| && Accepts(f, Strip(answers[i]))
    ensures forall j :: k <= j < i ==> !Accepts(f, Strip(answers[j]))
    decreases |answers| - k
  {
    if Accepts(f, Strip(answers[k])) then k else AcceptedFrom(answers, f, k + 1)
  }

  /** The `while True` loop of the add dialog: it asks again until an answer
      passes, and keeps that answer, stripped. */
  method Reprompt(answers: seq<string>, f: Format) returns (value: string, used: nat)
    requires SomeAccepted(answers, f)
    ensures used < |answers| && value == Strip(answers[used]) && Accepts(f, value)
    ensures forall j :: 0 <= j < used ==> !Accepts(f, Strip(answers[j]))
    ensures used == FirstAccepted(answers, f)
  {
    var stop := FirstAccepted(answers, f);
    used := 0;
    value := Strip(answers[0]);
    while !Accepts(f, value)
      invariant used <= stop && value == Strip(answers[used])
      invariant forall j :: 0 <= j < used ==> !Accepts(f, Strip(answers[j]))
      decreases stop - used
    {
      used := used + 1;
      value := Strip(answers[used]);
    }
  }

  /** The list without the task at position `k`, as `list.pop(k)` leaves it. */
  function Removed(ts: seq<Task>, k: nat): (r: seq<Task>)
    requires k < |ts|
    ensures |r| == |ts| - 1
    ensures forall j :: 0 <= j < k ==> r[j] == ts[j]
    ensures forall j :: k <= j < |r| ==> r[j] == ts[j + 1]
    ensures multiset(r) + multiset{ts[k]} == multiset(ts)
  {
    assert ts == ts[..k] + [ts[k]] + ts[k + 1..];
    ts[..k] + ts[k + 1..]
  }

  /** Why the add dialog stops early, or that it added the task. */
  datatype AddOutcome = Added | EmptyTitle | EmptySubject | EmptyTeacher

  class TaskList {
    var tasks: seq<Task>
    ghost var saved: seq<Task>

    /** The list as `load_tasks` returned it. */
    constructor (loaded: seq<Task>)
      ensures tasks == loaded && saved == loaded
    {
      tasks := loaded;
      saved := loaded;
    }

    /** `add_task`: a blank title, subject or teacher (checked in that order)
        stops the dialog with nothing changed; otherwise the date and the time
        are asked for until they pass, and the new incomplete task is appended
        and the list saved. */
    method Add(title: string, subject: string, teacher: string,
               dateAnswers: seq<string>, timeAnswers: seq<string>) returns (r: AddOutcome)
      requires Strip(title) != [] && Strip(subject) != [] && Strip(teacher) != [] ==>
        SomeAccepted(dateAnswers, DateFormat) && SomeAccepted(timeAnswers, TimeFormat)
      modifies this
      ensures r == EmptyTitle <==> Strip(title) == []
      ensures r == EmptySubject <==> Strip(title) != [] && Strip(subject) == []
      ensures r == EmptyTeacher <==> Strip(title) != [] && Strip(subject) != [] && Strip(teacher) == []
      ensures r != Added ==> tasks == old(tasks) && saved == old(saved)
      ensures r == Added ==>
        tasks == old(tasks) + [NewTask(Strip(title), Strip(subject), Strip(teacher),
                                       Strip(dateAnswers[FirstAccepted(dateAnswers, DateFormat)]),
                                       Strip(timeAnswers[FirstAccepted(timeAnswers, TimeFormat)]))]
        && saved == tasks
      ensures AllWellFormed(old(tasks)) ==> AllWellFormed(tasks)
    {
      var name := Strip(title);
      if name == [] {
        return EmptyTitle;
      }
      var lesson := Strip(subject);
      if lesson == [] {
        return EmptySubject;
      }
      var giver := Strip(teacher);
      if giver == [] {
        return EmptyTeacher;
      }
      var date, dateUsed := Reprompt(dateAnswers, DateFormat);
      var time, timeUsed := Reprompt(timeAnswers, TimeFormat);
      var task := NewTask(name, lesson, giver, date, time);
      if AllWellFormed(tasks) {
        NewTaskWellFormed(title, subject, teacher, dateAnswers[dateUsed], timeAnswers[timeUsed]);
        AppendPreservesWellFormed(tasks, task);
      }
      tasks := tasks + [task];
      saved := tasks;
      r := Added;
    }

    /** `edit_task`: the number picks the task; a blank answer keeps its field,
        a date or time answer that fails its check keeps its field and is
        reported, and the list is saved even when nothing changed. */
    method Edit(raw: string, a: Answers) returns (r: Outcome, dateRejected: bool, timeRejected: bool)
      modifies this
      ensures r == Choose(|old(tasks)|, raw)
      ensures r.Done? ==> tasks == old(tasks)[r.index := EditedTask(old(tasks)[r.index], a)] && saved == tasks
      ensures !r.Done? ==> tasks == old(tasks) && saved == old(saved)
      ensures dateRejected <==> r.Done? && Strip(a.date) != [] && !IsDateText(Strip(a.date))
      ensures timeRejected <==> r.Done? && Strip(a.time) != [] && !IsTimeText(Strip(a.time))
      ensures AllWellFormed(old(tasks)) ==> AllWellFormed(tasks)
    {
      dateRejected, timeRejected := false, false;
      r := Choose(|tasks|, raw);
      if !r.Done? {
        return;
      }
      var k := r.index;
      var task := tasks[k];
      var name := Strip(a.title);
      if name != [] {
        task := task.(title := name);
      }
      var lesson := Strip(a.subject);
      if lesson != [] {
        task := task.(subject := lesson);
      }
      var giver := Strip(a.teacher);
      if giver != [] {
        task := task.(teacher := giver);
      }
      var date := Strip(a.date);
      if date != [] {
        if IsDateText(date) {
          task := task.(date := date);
        } else {
          dateRejected := true;
        }
      }
      var time := Strip(a.time);
      if time != [] {
        if IsTimeText(time) {
          task := task.(time := time);
        } else {
          timeRejected := true;
        }
      }
      assert task == EditedTask(tasks[k], a);
      EditKeepsListWellFormed(tasks, k, a);
      tasks := tasks[k := task];
      saved := tasks;
    }

    /** `delete_task`: the number picks the task, which is popped from the
        list; its title is reported. */
    method Delete(raw: string) returns (r: Outcome, removed: string)
      modifies this
      ensures r == Choose(|old(tasks)|, raw)
      ensures r.Done? ==> tasks == Removed(old(tasks), r.index) && removed == old(tasks)[r.index].title
      ensures r.Done? ==> saved == tasks
      ensures !r.Done? ==> tasks == old(tasks) && saved == old(saved)
      ensures AllWellFormed(old(tasks)) ==> AllWellFormed(tasks)
    {
      removed := [];
      r := Choose(|tasks|, raw);
      if !r.Done? {
        return;
      }
      var k := r.index;
      removed := tasks[k].title;
      tasks := Removed(tasks, k);
      saved := tasks;
    }

    /** `toggle_task_status`: the number picks the task, whose status flips. */
    method Toggle(raw: string) returns (r: Outcome)
      modifies this
      ensures r == Choose(|old(tasks)|, raw)
      ensures r.Done? ==> tasks == old(tasks)[r.index := Toggled(old(tasks)[r.index])] && saved == tasks
      ensures !r.Done? ==> tasks == old(tasks) && saved == old(saved)
      ensures AllWellFormed(old(tasks)) ==> AllWellFormed(tasks)
    {
      r := Choose(|tasks|, raw);
      if !r.Done? {
        return;
      }
      var k := r.index;
      if tasks[k].status == Incomplete {
        tasks := tasks[k := tasks[k].(status := Complete)];
      } else {
        tasks := tasks[k := tasks[k].(status := Incomplete)];
      }
      saved := tasks;
    }
  }
}
