/** The task record of the to-do list, its two statuses, the 1-based choice of
    a task by number and the field-by-field edit rule. */
module Tasks {
  import opened Text
  import opened Calendar

  /** The status a new task gets, and the one `show_deadline_warnings` looks at. */
  const Incomplete: string := "Belum Selesai"
  /** The status of a finished task. */
  const Complete: string := "Selesai"

  /** One task: `nama_tugas`, `mata_pelajaran`, `guru`, `tanggal`, `jam` and `status`. */
  datatype Task = Task(title: string, subject: string, teacher: string,
                       date: string, time: string, status: string)

  /** A date text `strptime(_, "%Y-%m-%d")` accepts. */
  predicate IsDateText(s: string) {
    ParseDate(s).Some?
  }

  /** A time text `strptime(_, "%H:%M")` accepts. */
  predicate IsTimeText(s: string) {
    ParseTime(s).Some?
  }

  /** A text field as the program stores it: stripped and not empty. */
  predicate IsFieldText(s: string) {
    s != [] && Strip(s) == s
  }

  /** A task as the add and edit dialogs leave it: every text field stripped
      and non-empty, a date and a time that pass their checks, and one of the
      two statuses. Records read from the file need not be well formed. */
  predicate WellFormed(t: Task) {
    IsFieldText(t.title) && IsFieldText(t.subject) && IsFieldText(t.teacher)
    && IsDateText(t.date) && Strip(t.date) == t.date
    && IsTimeText(t.time) && Strip(t.time) == t.time
    && (t.status == Incomplete || t.status == Complete)
  }

  predicate AllWellFormed(ts: seq<Task>) {
    forall i :: 0 <= i < |ts| ==> WellFormed(ts[i])
  }

  /** The status a toggle gives: an incomplete task becomes complete and any
      other status, whatever it says, becomes incomplete. */
  function Flip(status: string): (r: string)
    ensures r == Incomplete || r == Complete
    ensures r == Complete <==> status == Incomplete
  {
    if status == Incomplete then Complete else Incomplete
  }

  function Toggled(t: Task): (r: Task)
    ensures r.status != t.status || (t.status != Incomplete && t.status != Complete)
    ensures r.(status := t.status) == t
  {
    t.(status := Flip(t.status))
  }

  /** Toggling twice restores a task that had one of the two statuses, and only such a task. */
  lemma ToggledTwice(t: Task)
    ensures Toggled(Toggled(t)) == t <==> t.status == Incomplete || t.status == Complete
  {
    if Toggled(Toggled(t)) == t {
      assert Flip(Flip(t.status)) == t.status;
    }
  }

  /** A toggled well-formed task is still well formed. */
  lemma ToggledWellFormed(t: Task)
    requires WellFormed(t)
    ensures WellFormed(Toggled(t))
  {
  }

  // ---------------------------------------------------------------------------
  // Choosing a task by its number
  // ---------------------------------------------------------------------------

  /** What happens to the number typed in a dialog that picks one of `count`
      listed items: the dialog stops at once when there is nothing to pick,
      `int()` may fail, the number may be outside 1..count, or it picks the
      item at 0-based position `index`. */
  datatype Outcome = NoTasks | NotANumber | OutOfRange | Done(index: nat)

  function Choose(count: nat, raw: string): (r: Outcome)
    ensures r == NoTasks <==> count == 0
    ensures r == NotANumber <==> count > 0 && ParseInt(raw).None?
    ensures r.Done? <==> count > 0 && ParseInt(raw).Some? && 1 <= ParseInt(raw).value <= count
    ensures r.Done? ==> r.index < count && r.index + 1 == ParseInt(raw).value
  {
    if count == 0 then NoTasks
    else match ParseInt(raw)
      case None => NotANumber
      case Some(p) => if 1 <= p <= count then Done(p - 1) else OutOfRange
  }

  /** Typing the number `k` shown in front of an item picks that item, as
      long as its numeral is within the digit limit of `int()`. */
  lemma {:induction false} ChooseShownNumber(count: nat, k: nat)
    requires 1 <= k <= count && |Decimal(k)| <= MaxStrDigits
    ensures Choose(count, Decimal(k)) == Done(k - 1)
  {
    DecimalParses(k);
  }

  /** Zero, a negative number and a number past the end pick nothing: they
      are out of range, or not a number at all once their numeral is longer
      than `int()` reads. */
  lemma {:induction false} ChooseOutside(count: nat, k: nat)
    requires count > 0
    ensures Choose(count, Decimal(0)) == OutOfRange
    ensures Choose(count, Decimal(count + k + 1)) ==
      if |Decimal(count + k + 1)| <= MaxStrDigits then OutOfRange else NotANumber
    ensures k > 0 ==>
      Choose(count, ['-'] + Decimal(k)) == if |Decimal(k)| <= MaxStrDigits then OutOfRange else NotANumber
  {
    DecimalParses(0);
    var past := Decimal(count + k + 1);
    if |past| <= MaxStrDigits {
      DecimalParses(count + k + 1);
    } else {
      LongNumeralRefused(past);
    }
    if k > 0 {
      if |Decimal(k)| <= MaxStrDigits {
        SignedNumeralParses('-', Decimal(k));
      } else {
        LongSignedNumeralRefused('-', Decimal(k));
      }
    }
  }

  // ---------------------------------------------------------------------------
  // Editing a task
  // ---------------------------------------------------------------------------

  /** The five answers of the edit dialog, as typed. */
  datatype Answers = Answers(title: string, subject: string, teacher: string,
                             date: string, time: string)

  /** A stripped answer replaces the field unless it is empty. */
  function KeepOrReplace(current: string, answer: string): (r: string)
    ensures Strip(answer) == [] ==> r == current
    ensures Strip(answer) != [] ==> r == Strip(answer)
  {
    var a := Strip(answer);
    if a != [] then a else current
  }

  /** A date answer is stored only when it is non-empty and passes the check. */
  function DateAnswer(current: string, answer: string): (r: string)
    ensures r != current ==> r == Strip(answer) && IsDateText(r)
    ensures IsDateText(Strip(answer)) ==> r == Strip(answer)
  {
    var a := Strip(answer);
    if a != [] && IsDateText(a) then a else current
  }

  /** A time answer is stored only when it is non-empty and passes the check. */
  function TimeAnswer(current: string, answer: string): (r: string)
    ensures r != current ==> r == Strip(answer) && IsTimeText(r)
    ensures IsTimeText(Strip(answer)) ==> r == Strip(answer)
  {
    var a := Strip(answer);
    if a != [] && IsTimeText(a) then a else current
  }

  /** The task after the edit dialog: each field takes its rule independently
      of the others, and the status is left alone. */
  function EditedTask(t: Task, a: Answers): (r: Task)
    ensures r.status == t.status
  {
    Task(KeepOrReplace(t.title, a.title), KeepOrReplace(t.subject, a.subject),
         KeepOrReplace(t.teacher, a.teacher), DateAnswer(t.date, a.date),
         TimeAnswer(t.time, a.time), t.status)
  }

  /** Blank answers to every question leave the task as it was. */
  lemma EditAllBlankIdentity(t: Task, a: Answers)
    requires AllBlank(a.title, StrBlanks) && AllBlank(a.subject, StrBlanks)
    requires AllBlank(a.teacher, StrBlanks) && AllBlank(a.date, StrBlanks)
    requires AllBlank(a.time, StrBlanks)
    ensures EditedTask(t, a) == t
  {
    TrimEmptyIff(a.title, StrBlanks);
    TrimEmptyIff(a.subject, StrBlanks);
    TrimEmptyIff(a.teacher, StrBlanks);
    TrimEmptyIff(a.date, StrBlanks);
    TrimEmptyIff(a.time, StrBlanks);
  }

  /** A rejected date or time does not cancel the other answers: the record is
      the one the same dialog gives with that answer left blank. */
  lemma EditRejectedDateKeepsOthers(t: Task, a: Answers)
    requires !IsDateText(Strip(a.date))
    ensures EditedTask(t, a) == EditedTask(t, a.(date := ""))
  {
    assert Strip("") == [];
  }

  lemma EditRejectedTimeKeepsOthers(t: Task, a: Answers)
    requires !IsTimeText(Strip(a.time))
    ensures EditedTask(t, a) == EditedTask(t, a.(time := ""))
  {
    assert Strip("") == [];
  }

  /** An edited well-formed task is still well formed. */
  lemma {:induction false} EditPreservesWellFormed(t: Task, a: Answers)
    requires WellFormed(t)
    ensures WellFormed(EditedTask(t, a))
  {
    ReplacedFieldIsText(t.title, a.title);
    ReplacedFieldIsText(t.subject, a.subject);
    ReplacedFieldIsText(t.teacher, a.teacher);
    TrimIdempotent(a.date, StrBlanks);
    TrimIdempotent(a.time, StrBlanks);
  }

  lemma {:induction false} ReplacedFieldIsText(current: string, answer: string)
    requires IsFieldText(current)
    ensures IsFieldText(KeepOrReplace(current, answer))
  {
    TrimIdempotent(answer, StrBlanks);
  }

  /** Replacing one task of a well-formed list by a well-formed task keeps the list well formed. */
  lemma {:induction false} ReplacePreservesWellFormed(ts: seq<Task>, k: nat, t: Task)
    requires AllWellFormed(ts) && k < |ts| && WellFormed(t)
    ensures AllWellFormed(ts[k := t])
  {
    var u := ts[k := t];
    forall j | 0 <= j < |u| ensures WellFormed(u[j]) {
      if j != k { assert u[j] == ts[j]; }
    }
  }

  /** Editing a task of a well-formed list keeps the list well formed. */
  lemma {:induction false} EditKeepsListWellFormed(ts: seq<Task>, k: nat, a: Answers)
    requires k < |ts|
    ensures AllWellFormed(ts) ==> AllWellFormed(ts[k := EditedTask(ts[k], a)])
  {
    if AllWellFormed(ts) {
      EditPreservesWellFormed(ts[k], a);
      ReplacePreservesWellFormed(ts, k, EditedTask(ts[k], a));
    }
  }

  /** Appending a well-formed task to a well-formed list keeps it well formed. */
  lemma {:induction false} AppendPreservesWellFormed(ts: seq<Task>, t: Task)
    requires AllWellFormed(ts) && WellFormed(t)
    ensures AllWellFormed(ts + [t])
  {
    var u := ts + [t];
    forall j | 0 <= j < |u| ensures WellFormed(u[j]) {
      if j < |ts| { assert u[j] == ts[j]; }
    }
  }

  /** The new task of the add dialog, from its stripped answers. */
  function NewTask(title: string, subject: string, teacher: string,
                   date: string, time: string): (r: Task)
    ensures r.status == Incomplete
  {
    Task(title, subject, teacher, date, time, Incomplete)
  }

  /** A task added from stripped non-empty answers and checked date and time is well formed. */
  lemma {:induction false} NewTaskWellFormed(title: string, subject: string, teacher: string,
                                             date: string, time: string)
    requires Strip(title) != [] && Strip(subject) != [] && Strip(teacher) != []
    requires IsDateText(Strip(date)) && IsTimeText(Strip(time))
    ensures WellFormed(NewTask(Strip(title), Strip(subject), Strip(teacher), Strip(date), Strip(time)))
  {
    TrimIdempotent(title, StrBlanks);
    TrimIdempotent(subject, StrBlanks);
    TrimIdempotent(teacher, StrBlanks);
    TrimIdempotent(date, StrBlanks);
    TrimIdempotent(time, StrBlanks);
  }
}
