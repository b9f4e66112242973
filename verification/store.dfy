/**
 The application state: the two collections in memory and the copies last
 written to storage. Each handler that changes a collection writes that
 collection back; a rejected input changes and writes nothing.
 */
module Store {
  import opened Records
  import Seqs
  import Text
  import Registry
  import opened Repository
  import TableView

  datatype App = App(subjects: seq<Subject>, assignments: seq<Assignment>,
                     savedSubjects: seq<Subject>, savedAssignments: seq<Assignment>)

  /** Storage holds exactly what is in memory. */
  predicate Synced(app: App)
  {
    app.savedSubjects == app.subjects && app.savedAssignments == app.assignments
  }

  /** Start-up: both collections read back from storage. */
  function Load(subjects: seq<Subject>, assignments: seq<Assignment>): (r: App)
    ensures Synced(r) && r.subjects == subjects && r.assignments == assignments
  {
    App(subjects, assignments, subjects, assignments)
  }

  /** The user actions that reach the collections. */
  datatype Action =
    | NewSubject(name: string, color: string)
    | RemoveSubject(idx: int)
    | NewAssignment(subject: string, status: string, name: string, dueDate: string)
    | RemoveAssignment(idx: int)
    | ClearAssignments
    | SaveTextAt(idx: int, field: TextField, value: string)
    | ChangeStatusAt(idx: int, value: string)
    | ChangeSubjectAt(idx: int, value: string)

  predicate IsEdit(act: Action)
  {
    act.SaveTextAt? || act.ChangeStatusAt? || act.ChangeSubjectAt?
  }

  /** An edit always targets a record drawn in the table, so its position
      is within the collection. */
  predicate Applicable(app: App, act: Action)
  {
    IsEdit(act) ==> 0 <= act.idx < |app.assignments|
  }

  /** The state after an action, and whether a celebration fires. */
  datatype Step = Step(app: App, celebrate: bool)

  function WithSubjects(app: App, subjects: seq<Subject>): App
  {
    app.(subjects := subjects, savedSubjects := subjects)
  }

  function WithAssignments(app: App, assignments: seq<Assignment>): App
  {
    app.(assignments := assignments, savedAssignments := assignments)
  }

  function Apply(app: App, act: Action): (r: Step)
    requires Applicable(app, act)
    ensures Synced(app) ==> Synced(r.app)
    ensures act.NewSubject? || act.RemoveSubject? ==> r.app.assignments == app.assignments
    ensures !(act.NewSubject? || act.RemoveSubject?) ==> r.app.subjects == app.subjects
    ensures IsEdit(act) ==>
              |r.app.assignments| == |app.assignments|
              && forall j :: 0 <= j < |app.assignments| && j != act.idx ==>
                   r.app.assignments[j] == app.assignments[j]
    ensures r.celebrate ==> act.ClearAssignments? || act.NewAssignment? || act.ChangeStatusAt?
    ensures act.ClearAssignments? ==> r.app.assignments == [] && r.celebrate
    ensures act.NewSubject? ==> r.app.subjects == Registry.AddSubject(app.subjects, act.name, act.color).subjects
    ensures act.RemoveSubject? ==> r.app.subjects == Registry.DeleteSubject(app.subjects, act.idx)
    ensures act.RemoveSubject? && 0 <= act.idx < |app.subjects| ==>
              r.app.subjects == app.subjects[..act.idx] + app.subjects[act.idx + 1..]
    ensures act.NewAssignment? ==>
              var ad := AddAssignment(app.assignments, app.subjects, act.subject, act.status, act.name, act.dueDate);
              r.app.assignments == ad.assignments && r.celebrate == ad.becameCompleted
    ensures act.RemoveAssignment? ==> r.app.assignments == DeleteAssignment(app.assignments, act.idx)
    ensures act.RemoveAssignment? && 0 <= act.idx < |app.assignments| ==>
              r.app.assignments == app.assignments[..act.idx] + app.assignments[act.idx + 1..]
    ensures act.SaveTextAt? ==>
              r.app.assignments[act.idx] == EditText(app.assignments[act.idx], act.field, act.value)
    ensures act.ChangeStatusAt? ==>
              r.app.assignments[act.idx] == app.assignments[act.idx].(status := act.value)
              && (r.celebrate <==> act.value == Completed)
    ensures act.ChangeSubjectAt? && HasSubject(app.subjects, act.value) ==>
              r.app.assignments[act.idx].subject == act.value
              && ColorMatches(app.subjects, r.app.assignments[act.idx])
    ensures act.ChangeSubjectAt? && !HasSubject(app.subjects, act.value) ==> r.app == app
  {
    if act.NewSubject? || act.RemoveSubject? then ApplyRegistry(app, act)
    else if IsEdit(act) then ApplyEdit(app, act)
    else ApplyCollection(app, act)
  }

  /** The two subject handlers: the registry changes and is written back. */
  function ApplyRegistry(app: App, act: Action): (r: Step)
    requires act.NewSubject? || act.RemoveSubject?
    ensures Synced(app) ==> Synced(r.app)
    ensures r.app.assignments == app.assignments && !r.celebrate
    ensures act.NewSubject? ==> r.app.subjects == Registry.AddSubject(app.subjects, act.name, act.color).subjects
    ensures act.RemoveSubject? ==> r.app.subjects == Registry.DeleteSubject(app.subjects, act.idx)
  {
    match act
    case NewSubject(name, color) =>
      var s := Registry.AddSubject(app.subjects, name, color);
      Step(if s.added then WithSubjects(app, s.subjects) else app, false)
    case RemoveSubject(idx) =>
      Step(WithSubjects(app, Registry.DeleteSubject(app.subjects, idx)), false)
  }

  /** The add, delete and clear handlers for assignments. */
  function ApplyCollection(app: App, act: Action): (r: Step)
    requires act.NewAssignment? || act.RemoveAssignment? || act.ClearAssignments?
    ensures Synced(app) ==> Synced(r.app)
    ensures r.app.subjects == app.subjects
    ensures r.celebrate ==> act.ClearAssignments? || act.NewAssignment?
    ensures act.ClearAssignments? ==> r.app.assignments == [] && r.celebrate
    ensures act.NewAssignment? ==>
              var ad := AddAssignment(app.assignments, app.subjects, act.subject, act.status, act.name, act.dueDate);
              r.app.assignments == ad.assignments && r.celebrate == ad.becameCompleted
    ensures act.RemoveAssignment? ==> r.app.assignments == DeleteAssignment(app.assignments, act.idx)
  {
    match act
    case NewAssignment(subject, status, name, dueDate) =>
      var ad := AddAssignment(app.assignments, app.subjects, subject, status, name, dueDate);
      if |ad.assignments| > |app.assignments| then Step(WithAssignments(app, ad.assignments), ad.becameCompleted)
      else Step(app, false)
    case RemoveAssignment(idx) =>
      Step(WithAssignments(app, DeleteAssignment(app.assignments, idx)), false)
    case ClearAssignments =>
      var c := ClearAll(app.assignments);
      Step(WithAssignments(app, c.assignments), c.becameCompleted)
  }

  /** The three inline edits: the record at the edited position is replaced
      and written back; a refused subject change leaves everything as it
      was. */
  function ApplyEdit(app: App, act: Action): (r: Step)
    requires IsEdit(act) && 0 <= act.idx < |app.assignments|
    ensures Synced(app) ==> Synced(r.app)
    ensures r.app.subjects == app.subjects
    ensures |r.app.assignments| == |app.assignments|
    ensures forall j :: 0 <= j < |app.assignments| && j != act.idx ==> r.app.assignments[j] == app.assignments[j]
    ensures r.celebrate ==> act.ChangeStatusAt?
    ensures act.SaveTextAt? ==>
              r.app.assignments[act.idx] == EditText(app.assignments[act.idx], act.field, act.value)
    ensures act.ChangeStatusAt? ==>
              r.app.assignments[act.idx] == app.assignments[act.idx].(status := act.value)
              && (r.celebrate <==> act.value == Completed)
    ensures act.ChangeSubjectAt? && HasSubject(app.subjects, act.value) ==>
              r.app.assignments[act.idx].subject == act.value
              && ColorMatches(app.subjects, r.app.assignments[act.idx])
    ensures act.ChangeSubjectAt? && !HasSubject(app.subjects, act.value) ==> r.app == app
  {
    var a := app.assignments[act.idx];
    match act
    case SaveTextAt(idx, field, value) =>
      Step(WithAssignments(app, UpdateAt(app.assignments, idx, EditText(a, field, value))), false)
    case ChangeStatusAt(idx, value) =>
      var ed := EditStatus(a, value);
      Step(WithAssignments(app, UpdateAt(app.assignments, idx, ed.record)), ed.becameCompleted)
    case ChangeSubjectAt(idx, value) =>
      match EditSubject(a, app.subjects, value)
      case Some(b) => Step(WithAssignments(app, UpdateAt(app.assignments, idx, b)), false)
      case None => Step(app, false)
  }

  // ---------------------------------------------------------------------------
  // Invariants
  // ---------------------------------------------------------------------------

  /** Every subject has a name and a colour; every assignment has a name, a
      subject and a due date. */
  predicate WellFormed(app: App)
  {
    SubjectsNamed(app.subjects) && RecordsFilled(app.assignments)
  }

  /** Every assignment's colour is the colour of its subject. */
  predicate Consistent(app: App)
  {
    forall a | a in app.assignments :: ColorMatches(app.subjects, a)
  }

  /** What survives a removal was there before. */
  lemma RemoveAtKeepsMembers<T>(s: seq<T>, idx: int, x: T)
    requires x in Seqs.RemoveAt(s, idx)
    ensures x in s
  {
    assert x in multiset(Seqs.RemoveAt(s, idx));
  }

  /** A record replaced at one position: the others are still members. */
  lemma UpdateAtMembers(s: seq<Assignment>, idx: int, b: Assignment, x: Assignment)
    requires 0 <= idx < |s| && x in UpdateAt(s, idx, b)
    ensures x == b || x in s
  {
    var j :| 0 <= j < |s| && UpdateAt(s, idx, b)[j] == x;
    if j != idx {
      assert x == s[j];
    }
  }

  predicate SubjectsNamed(subjects: seq<Subject>)
  {
    forall s | s in subjects :: s.name != "" && s.color != ""
  }

  predicate RecordsFilled(assignments: seq<Assignment>)
  {
    forall a | a in assignments :: a.name != "" && a.subject != "" && a.dueDate != ""
  }

  lemma AddSubjectKeepsNamed(subjects: seq<Subject>, name: string, color: string)
    requires SubjectsNamed(subjects)
    ensures SubjectsNamed(Registry.AddSubject(subjects, name, color).subjects)
  {
    var r := Registry.AddSubject(subjects, name, color).subjects;
    forall x | x in r ensures x.name != "" && x.color != "" {
      var j :| 0 <= j < |r| && r[j] == x;
      if j < |subjects| {
        assert x == subjects[j];
      }
    }
  }

  lemma AddAssignmentKeepsFilled(app: App, subject: string, status: string, name: string, dueDate: string)
    requires RecordsFilled(app.assignments)
    ensures RecordsFilled(AddAssignment(app.assignments, app.subjects, subject, status, name, dueDate).assignments)
  {
    var ad := AddAssignment(app.assignments, app.subjects, subject, status, name, dueDate);
    if |ad.assignments| > |app.assignments| {
      var a := ad.assignments[|app.assignments|];
      AppendedOne(app.assignments, ad.assignments);
      AppendKeepsFilled(app.assignments, a);
    }
  }

  lemma AppendKeepsFilled(s: seq<Assignment>, a: Assignment)
    requires RecordsFilled(s) && a.name != "" && a.subject != "" && a.dueDate != ""
    ensures RecordsFilled(s + [a])
  {
    forall x | x in s + [a] ensures x.name != "" && x.subject != "" && x.dueDate != "" {
      if x != a {
        assert x in s;
      }
    }
  }

  /** One longer, with the old sequence as prefix: exactly one appended. */
  lemma AppendedOne<T>(s: seq<T>, t: seq<T>)
    requires |t| == |s| + 1 && t[..|s|] == s
    ensures t == s + [t[|s|]]
  {
    assert t == t[..|s|] + [t[|s|]];
  }

  lemma UpdateKeepsFilled(s: seq<Assignment>, idx: int, b: Assignment)
    requires 0 <= idx < |s| && RecordsFilled(s)
    requires b.name != "" && b.subject != "" && b.dueDate != ""
    ensures RecordsFilled(UpdateAt(s, idx, b))
  {
    forall x | x in UpdateAt(s, idx, b) ensures x.name != "" && x.subject != "" && x.dueDate != "" {
      UpdateAtMembers(s, idx, b, x);
    }
  }

  /** Every action keeps the collections well formed. */
  lemma WellFormedPreserved(app: App, act: Action)
    requires WellFormed(app) && Applicable(app, act)
    ensures WellFormed(Apply(app, act).app)
  {
    assert SubjectsNamed(app.subjects) && RecordsFilled(app.assignments);
    match act
    case NewSubject(name, color) =>
      AddSubjectKeepsNamed(app.subjects, name, color);
    case RemoveSubject(idx) =>
      forall x | x in Registry.DeleteSubject(app.subjects, idx) ensures x.name != "" && x.color != "" {
        RemoveAtKeepsMembers(app.subjects, idx, x);
      }
    case NewAssignment(subject, status, name, dueDate) =>
      AddAssignmentKeepsFilled(app, subject, status, name, dueDate);
    case RemoveAssignment(idx) =>
      forall x | x in DeleteAssignment(app.assignments, idx) ensures x.name != "" && x.subject != "" && x.dueDate != "" {
        RemoveAtKeepsMembers(app.assignments, idx, x);
      }
    case ClearAssignments =>
    case SaveTextAt(idx, field, value) =>
      assert app.assignments[idx] in app.assignments;
      UpdateKeepsFilled(app.assignments, idx, EditText(app.assignments[idx], field, value));
    case ChangeStatusAt(idx, value) =>
      assert app.assignments[idx] in app.assignments;
      UpdateKeepsFilled(app.assignments, idx, EditStatus(app.assignments[idx], value).record);
    case ChangeSubjectAt(idx, value) =>
      var e := EditSubject(app.assignments[idx], app.subjects, value);
      if e.Some? {
        var j :| 0 <= j < |app.subjects| && app.subjects[j].name == value;
        assert app.subjects[j] in app.subjects;
        assert app.assignments[idx] in app.assignments;
        UpdateKeepsFilled(app.assignments, idx, e.value);
      }
  }

  lemma AddSubjectKeepsColors(app: App, name: string, color: string)
    requires Consistent(app)
    ensures forall x | x in app.assignments :: ColorMatches(Registry.AddSubject(app.subjects, name, color).subjects, x)
  {
    var s := Registry.AddSubject(app.subjects, name, color);
    forall x | x in app.assignments ensures ColorMatches(s.subjects, x) {
      if s.added {
        ColorOfStableUnderAppend(app.subjects, [Subject(Text.Trim(name), color)], x.subject);
      }
    }
  }

  lemma AddAssignmentKeepsColors(app: App, subject: string, status: string, name: string, dueDate: string)
    requires Consistent(app)
    ensures forall x | x in AddAssignment(app.assignments, app.subjects, subject, status, name, dueDate).assignments ::
              ColorMatches(app.subjects, x)
  {
    var ad := AddAssignment(app.assignments, app.subjects, subject, status, name, dueDate);
    if |ad.assignments| > |app.assignments| {
      var a := ad.assignments[|app.assignments|];
      AppendedOne(app.assignments, ad.assignments);
      AppendKeepsColors(app.subjects, app.assignments, a);
    }
  }

  lemma AppendKeepsColors(subjects: seq<Subject>, s: seq<Assignment>, a: Assignment)
    requires forall x | x in s :: ColorMatches(subjects, x)
    requires ColorMatches(subjects, a)
    ensures forall x | x in s + [a] :: ColorMatches(subjects, x)
  {
    forall x | x in s + [a] ensures ColorMatches(subjects, x) {
      if x != a {
        assert x in s;
      }
    }
  }

  lemma UpdateKeepsColors(subjects: seq<Subject>, s: seq<Assignment>, idx: int, b: Assignment)
    requires 0 <= idx < |s| && ColorMatches(subjects, b)
    requires forall x | x in s :: ColorMatches(subjects, x)
    ensures forall x | x in UpdateAt(s, idx, b) :: ColorMatches(subjects, x)
  {
    forall x | x in UpdateAt(s, idx, b) ensures ColorMatches(subjects, x) {
      UpdateAtMembers(s, idx, b, x);
    }
  }

  /** Every action except deleting a subject keeps each assignment's colour
      equal to its subject's. */
  lemma ConsistentPreserved(app: App, act: Action)
    requires Consistent(app) && Applicable(app, act) && !act.RemoveSubject?
    ensures Consistent(Apply(app, act).app)
  {
    match act
    case NewSubject(name, color) =>
      AddSubjectKeepsColors(app, name, color);
    case NewAssignment(subject, status, name, dueDate) =>
      AddAssignmentKeepsColors(app, subject, status, name, dueDate);
    case RemoveAssignment(idx) =>
      forall x | x in DeleteAssignment(app.assignments, idx) ensures ColorMatches(app.subjects, x) {
        RemoveAtKeepsMembers(app.assignments, idx, x);
      }
    case ClearAssignments =>
    case SaveTextAt(idx, field, value) =>
      assert app.assignments[idx] in app.assignments;
      UpdateKeepsColors(app.subjects, app.assignments, idx, EditText(app.assignments[idx], field, value));
    case ChangeStatusAt(idx, value) =>
      assert app.assignments[idx] in app.assignments;
      UpdateKeepsColors(app.subjects, app.assignments, idx, EditStatus(app.assignments[idx], value).record);
    case ChangeSubjectAt(idx, value) =>
      var e := EditSubject(app.assignments[idx], app.subjects, value);
      if e.Some? {
        UpdateKeepsColors(app.subjects, app.assignments, idx, e.value);
      }
  }

  /** Deleting a subject does not touch the assignments: a record filed
      under the deleted subject's name, when no other subject has that
      name, keeps its subject but no longer resolves to a colour. */
  lemma RemoveSubjectOrphans(app: App, idx: int, j: int)
    requires 0 <= idx < |app.subjects| && 0 <= j < |app.assignments|
    requires app.assignments[j].subject == app.subjects[idx].name
    requires forall k :: 0 <= k < |app.subjects| && k != idx ==> app.subjects[k].name != app.subjects[idx].name
    ensures Apply(app, RemoveSubject(idx)).app.assignments[j] == app.assignments[j]
    ensures ColorOf(Apply(app, RemoveSubject(idx)).app.subjects, app.assignments[j].subject).None?
    ensures !Consistent(Apply(app, RemoveSubject(idx)).app)
  {
    var r := Apply(app, RemoveSubject(idx)).app;
    var name := app.subjects[idx].name;
    assert r.subjects == app.subjects[..idx] + app.subjects[idx + 1..];
    forall k | 0 <= k < |r.subjects| ensures r.subjects[k].name != name {
      if k < idx {
        assert r.subjects[k] == app.subjects[k];
      } else {
        assert r.subjects[k] == app.subjects[k + 1];
      }
    }
    assert app.assignments[j] in r.assignments;
  }

  /** With a single "Math" subject, deleting it orphans the record filed
      under Math. */
  lemma RemoveOnlySubjectOrphans()
    ensures var a := Assignment("Math", "#B58463", "Ongoing", "Essay", "2024-05-01");
            var app := Load([Subject("Math", "#B58463")], [a]);
            Consistent(app) && !Consistent(Apply(app, RemoveSubject(0)).app)
  {
    var a := Assignment("Math", "#B58463", "Ongoing", "Essay", "2024-05-01");
    var app := Load([Subject("Math", "#B58463")], [a]);
    assert app.subjects[0].name == "Math";
    RemoveSubjectOrphans(app, 0, 0);
  }

  /** The registry does not keep names distinct: when two subjects share a
      name, deleting the first leaves the name resolving to the second one's
      colour. */
  lemma RemoveDuplicateNameStillResolves()
    ensures var app := Load([Subject("Math", "#B58463"), Subject("Math", "#845C66")], []);
            ColorOf(Apply(app, RemoveSubject(0)).app.subjects, "Math") == Some("#845C66")
  {
    var app := Load([Subject("Math", "#B58463"), Subject("Math", "#845C66")], []);
    assert Apply(app, RemoveSubject(0)).app.subjects == [Subject("Math", "#845C66")];
  }

  /** After clearing, the table draws no rows whatever the filters. */
  lemma ClearEmptiesTable(app: App, f: TableView.Filters, daysLeft: string -> int)
    ensures TableView.Rows(Apply(app, ClearAssignments).app.assignments, f, daysLeft) == []
  {
    TableView.EmptyTable(f, daysLeft);
  }

  // ---------------------------------------------------------------------------
  // Sessions
  // ---------------------------------------------------------------------------

  /** A sequence of actions from `app`; `None` when an edit would target a
      position that no longer exists. */
  function Run(app: App, acts: seq<Action>): (r: Option<App>)
    ensures r.Some? && Synced(app) ==> Synced(r.value)
    ensures r.Some? && WellFormed(app) ==> WellFormed(r.value)
    decreases |acts|
  {
    if acts == [] then Some(app)
    else if !Applicable(app, acts[0]) then None
    else
      var next := Apply(app, acts[0]).app;
      assert WellFormed(app) ==> WellFormed(next) by {
        if WellFormed(app) { WellFormedPreserved(app, acts[0]); }
      }
      Run(next, acts[1..])
  }

  /** A session that starts empty keeps storage in step with memory and the
      collections well formed, whatever the actions. */
  lemma SessionFromEmpty(acts: seq<Action>)
    requires Run(Load([], []), acts).Some?
    ensures Synced(Run(Load([], []), acts).value)
    ensures WellFormed(Run(Load([], []), acts).value)
  {
  }
}
