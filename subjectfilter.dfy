/** `filter_by_subject`: the menu of subjects, the choice of one by its number
    and the tasks of that subject, in list order. The menu is built from a
    Python set, whose order is not fixed, so the menu is a parameter that
    must list each subject of the tasks exactly once. */
module SubjectFilter {
  import opened Text
  import opened Tasks
  import opened Deadlines
  import opened Presenter

  /** The subjects the tasks have. */
  function Subjects(ts: seq<Task>): (r: set<string>)
    ensures forall i :: 0 <= i < |ts| ==> ts[i].subject in r
  {
    set i | 0 <= i < |ts| :: ts[i].subject
  }

  predicate NoDuplicates(menu: seq<string>) {
    forall i, j :: 0 <= i < j < |menu| ==> menu[i] != menu[j]
  }

  /** `list(set(...))` of the subjects: each subject of the tasks once, and nothing else. */
  predicate IsSubjectMenu(ts: seq<Task>, menu: seq<string>) {
    NoDuplicates(menu) && (forall s :: s in menu ==> s in Subjects(ts))
      && (forall s :: s in Subjects(ts) ==> s in menu)
  }

  /** The subjects in the order they first occur: one menu the program may show. */
  function FirstSeenSubjects(ts: seq<Task>): (menu: seq<string>)
    ensures IsSubjectMenu(ts, menu)
  {
    if ts == [] then []
    else
      var front := ts[..|ts| - 1];
      var m := FirstSeenSubjects(front);
      var s := ts[|ts| - 1].subject;
      assert forall x :: x in Subjects(ts) <==> x in Subjects(front) || x == s by {
        forall x | x in Subjects(ts) ensures x in Subjects(front) || x == s {
          var i :| 0 <= i < |ts| && ts[i].subject == x;
          if i < |ts| - 1 { assert front[i] == ts[i]; }
        }
        forall x | x in Subjects(front) ensures x in Subjects(ts) {
          var i :| 0 <= i < |front| && front[i].subject == x;
          assert ts[i] == front[i];
        }
      }
      if s in m then m else m + [s]
  }

  /** Every list of tasks has a menu. */
  lemma {:induction false} MenuExists(ts: seq<Task>)
    ensures exists menu :: IsSubjectMenu(ts, menu)
  {
    var menu := FirstSeenSubjects(ts);
    assert IsSubjectMenu(ts, menu);
  }

  /** The menu is empty exactly when the list is. */
  lemma {:induction false} MenuEmptyIff(ts: seq<Task>, menu: seq<string>)
    requires IsSubjectMenu(ts, menu)
    ensures menu == [] <==> ts == []
  {
    if ts != [] {
      assert ts[0].subject in Subjects(ts);
    }
    if menu != [] {
      assert menu[0] in menu;
    }
  }

  /** The tasks whose subject is exactly `s`, in list order. */
  function Filter(ts: seq<Task>, s: string): (r: seq<Task>)
    ensures |r| <= |ts|
    ensures forall t :: t in r <==> t in ts && t.subject == s
  {
    if ts == [] then []
    else
      var front := ts[..|ts| - 1];
      var last := ts[|ts| - 1];
      assert ts == front + [last];
      Filter(front, s) + (if last.subject == s then [last] else [])
  }

  /** Filtering two lists one after the other filters each in turn, so the
      kept tasks stay in their relative order. */
  lemma {:induction false} FilterConcat(a: seq<Task>, b: seq<Task>, s: string)
    ensures Filter(a + b, s) == Filter(a, s) + Filter(b, s)
    decreases |b|
  {
    if b == [] {
      assert a + b == a;
    } else {
      var b' := b[..|b| - 1];
      assert (a + b)[..|a + b| - 1] == a + b';
      FilterConcat(a, b', s);
    }
  }

  /** A task of the chosen subject is kept as many times as it occurs, and any
      other task not at all. */
  lemma {:induction false} FilterMultiplicity(ts: seq<Task>, s: string, t: Task)
    ensures multiset(Filter(ts, s))[t] == if t.subject == s then multiset(ts)[t] else 0
    decreases |ts|
  {
    if ts != [] {
      var front := ts[..|ts| - 1];
      var last := ts[|ts| - 1];
      assert ts == front + [last];
      FilterMultiplicity(front, s, t);
    }
  }

  /** Filtering on a subject the list of tasks has keeps at least one task. */
  lemma {:induction false} FilterOnPresentSubject(ts: seq<Task>, s: string)
    requires s in Subjects(ts)
    ensures Filter(ts, s) != []
  {
    var i :| 0 <= i < |ts| && ts[i].subject == s;
    assert ts[i] in Filter(ts, s);
  }

  /** Every subject the menu offers has tasks. */
  lemma {:induction false} MenuChoiceNonEmpty(ts: seq<Task>, menu: seq<string>, k: nat)
    requires IsSubjectMenu(ts, menu) && k < |menu|
    ensures Filter(ts, menu[k]) != []
  {
    FilterOnPresentSubject(ts, menu[k]);
  }

  /** The result of the dialog: nothing shown, for one of the reasons of
      `Outcome`, or the chosen subject and its tasks. */
  datatype Selection = Refused(outcome: Outcome) | Shown(subject: string, matching: seq<Task>)

  /** `filter_by_subject` up to the table it prints. */
  function FilterBySubject(ts: seq<Task>, menu: seq<string>, raw: string): (r: Selection)
    requires IsSubjectMenu(ts, menu)
    ensures r.Refused? ==> r.outcome == Choose(|menu|, raw) && !r.outcome.Done?
    ensures r.Refused? && r.outcome == NoTasks <==> ts == []
    ensures r.Shown? <==> Choose(|menu|, raw).Done?
    ensures r.Shown? ==> r.subject == menu[Choose(|menu|, raw).index] && r.subject in Subjects(ts)
    ensures r.Shown? ==> r.matching == Filter(ts, r.subject)
    ensures r.Shown? ==> r.matching != [] && forall t :: t in r.matching <==> t in ts && t.subject == r.subject
  {
    MenuEmptyIff(ts, menu);
    if ts == [] then Refused(NoTasks)
    else
      var choice := Choose(|menu|, raw);
      if choice.Done? then
        MenuChoiceNonEmpty(ts, menu, choice.index);
        Shown(menu[choice.index], Filter(ts, menu[choice.index]))
      else Refused(choice)
  }

  /** The one-subject table and the warnings under it, for a selection that shows one. */
  function SubjectScreen(sel: Selection, now: int): (r: (seq<SubjectRow>, seq<Warning>))
    requires sel.Shown?
    ensures r.0 == SubjectTable(sel.matching) && r.1 == Warnings(sel.matching, now)
    ensures |r.0| == |sel.matching|
    ensures forall i :: 0 <= i < |r.0| ==> r.0[i] == WithoutSubject(TaskRow(i + 1, sel.matching[i]))
  {
    (SubjectTable(sel.matching), Warnings(sel.matching, now))
  }

  /** Typing the number shown in front of a subject shows exactly that subject's tasks. */
  lemma {:induction false} ChoosingShownSubject(ts: seq<Task>, menu: seq<string>, k: nat)
    requires IsSubjectMenu(ts, menu) && 1 <= k <= |menu| && |Decimal(k)| <= MaxStrDigits
    ensures FilterBySubject(ts, menu, Decimal(k)) == Shown(menu[k - 1], Filter(ts, menu[k - 1]))
  {
    ChooseShownNumber(|menu|, k);
    MenuEmptyIff(ts, menu);
  }
}
