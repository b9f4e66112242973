/**
 The assignment repository: adding an assignment from the form, deleting
 one by position, clearing all, and the single-field edits the table's
 inline editors commit.
 */
module Repository {
  import opened Records
  import opened Text
  import Seqs

  // ---------------------------------------------------------------------------
  // Colour consistency
  // ---------------------------------------------------------------------------

  /** The record's colour is the colour of the first subject bearing its
      subject name. */
  predicate ColorMatches(subjects: seq<Subject>, a: Assignment)
  {
    ColorOf(subjects, a.subject) == Some(a.color)
  }

  /** Some subject carries this name (the lookup will not fail). */
  predicate HasSubject(subjects: seq<Subject>, name: string)
  {
    exists j :: 0 <= j < |subjects| && subjects[j].name == name
  }

  // ---------------------------------------------------------------------------
  // Add
  // ---------------------------------------------------------------------------

  /** Outcome of the add handler: the collection after it, and whether the
      "became Completed" celebration fires. */
  datatype Added = Added(assignments: seq<Assignment>, becameCompleted: bool)

  /** The add handler as written: the name is checked BEFORE trimming and
      stored after it; a subject name with no subject makes the colour
      lookup throw before anything is appended. */
  function AddAssignmentAsWritten(assignments: seq<Assignment>, subjects: seq<Subject>,
                                  subject: string, status: string, nameInput: string, dueDate: string): (r: Added)
    ensures var accepted := subject != "" && nameInput != "" && dueDate != "" && HasSubject(subjects, subject);
            && (!accepted ==> r == Added(assignments, false))
            && (accepted ==> |r.assignments| == |assignments| + 1 && r.assignments[..|assignments|] == assignments)
            && (accepted ==> r.becameCompleted == (status == Completed))
    ensures |r.assignments| > |assignments| ==>
              var a := r.assignments[|assignments|];
              a == Assignment(subject, a.color, status, Trim(nameInput), dueDate)
              && ColorMatches(subjects, a)
  {
    if subject == "" || nameInput == "" || dueDate == "" then
      Added(assignments, false)
    else
      match ColorOf(subjects, subject)
      case None => Added(assignments, false)
      case Some(color) =>
        var a := Assignment(subject, color, status, Trim(nameInput), dueDate);
        assert (assignments + [a])[..|assignments|] == assignments;
        Added(assignments + [a], status == Completed)
  }

  /** A name of spaces passes the guard and is stored as the empty name. */
  lemma BlankNameAccepted()
    ensures var r := AddAssignmentAsWritten([], [Subject("Math", "#B58463")], "Math", "Ongoing", "   ", "2024-05-01");
            |r.assignments| == 1 && r.assignments[0].name == ""
  {
    var subjects := [Subject("Math", "#B58463")];
    assert subjects[0].name == "Math";
    assert AllWhitespace("   ");
    TrimEmptyIffBlank("   ");
    var r := AddAssignmentAsWritten([], subjects, "Math", "Ongoing", "   ", "2024-05-01");
    assert |r.assignments| == 1;
    assert r.assignments[0].name == Trim("   ");
  }

  /** The add handler with the name checked after trimming, as the subject
      handler does: an assignment always gets a non-empty name. */
  function AddAssignment(assignments: seq<Assignment>, subjects: seq<Subject>,
                         subject: string, status: string, nameInput: string, dueDate: string): (r: Added)
    ensures var accepted := subject != "" && !AllWhitespace(nameInput) && dueDate != "" && HasSubject(subjects, subject);
            && (!accepted ==> r == Added(assignments, false))
            && (accepted ==> |r.assignments| == |assignments| + 1 && r.assignments[..|assignments|] == assignments)
            && (accepted ==> r.becameCompleted == (status == Completed))
    ensures |r.assignments| > |assignments| ==>
              var a := r.assignments[|assignments|];
              a == Assignment(subject, a.color, status, Trim(nameInput), dueDate)
              && ColorMatches(subjects, a) && a.name != ""
  {
    TrimEmptyIffBlank(nameInput);
    if subject == "" || Trim(nameInput) == "" || dueDate == "" then
      Added(assignments, false)
    else
      match ColorOf(subjects, subject)
      case None => Added(assignments, false)
      case Some(color) =>
        var a := Assignment(subject, color, status, Trim(nameInput), dueDate);
        assert (assignments + [a])[..|assignments|] == assignments;
        Added(assignments + [a], status == Completed)
  }

  /** The corrected handler refuses the blank name the handler as written stores. */
  lemma BlankNameRejected()
    ensures AddAssignment([], [Subject("Math", "#B58463")], "Math", "Ongoing", "   ", "2024-05-01") == Added([], false)
  {
    assert AllWhitespace("   ");
  }

  /** Wherever the handler as written accepts a name with visible characters, the
      corrected handler does exactly the same. */
  lemma AddAgreesOnVisibleNames(assignments: seq<Assignment>, subjects: seq<Subject>,
                                subject: string, status: string, nameInput: string, dueDate: string)
    requires !AllWhitespace(nameInput)
    ensures AddAssignment(assignments, subjects, subject, status, nameInput, dueDate)
            == AddAssignmentAsWritten(assignments, subjects, subject, status, nameInput, dueDate)
  {
    TrimEmptyIffBlank(nameInput);
  }

  // ---------------------------------------------------------------------------
  // Delete and clear
  // ---------------------------------------------------------------------------

  /** `deleteAssignment(idx)`: `assignments.splice(idx, 1)`. */
  function DeleteAssignment(assignments: seq<Assignment>, idx: int): (r: seq<Assignment>)
    ensures 0 <= idx < |assignments| ==> r == assignments[..idx] + assignments[idx + 1..]
    ensures idx >= |assignments| ==> r == assignments
    ensures multiset(r) <= multiset(assignments)
  {
    Seqs.RemoveAt(assignments, idx)
  }

  /** The confirmed clear-all: the collection becomes empty and the
      "cleared" celebration fires. */
  function ClearAll(assignments: seq<Assignment>): (r: Added)
    ensures r.assignments == [] && r.becameCompleted
  {
    Added([], true)
  }

  // ---------------------------------------------------------------------------
  // Inline edits
  // ---------------------------------------------------------------------------

  /** The two free-text cells: the name and the due date. */
  datatype TextField = NameField | DueDateField

  function FieldValue(a: Assignment, f: TextField): string
  {
    match f
    case NameField => a.name
    case DueDateField => a.dueDate
  }

  /** `assignment[key] = input.value || assignment[key]`: a blank value keeps
      the old one; nothing else in the record changes. */
  function EditText(a: Assignment, f: TextField, value: string): (r: Assignment)
    ensures value != "" ==> FieldValue(r, f) == value
    ensures value == "" ==> r == a
    ensures r.subject == a.subject && r.color == a.color && r.status == a.status
    ensures f.NameField? ==> r.dueDate == a.dueDate
    ensures f.DueDateField? ==> r.name == a.name
  {
    var v := if value == "" then FieldValue(a, f) else value;
    match f
    case NameField => a.(name := v)
    case DueDateField => a.(dueDate := v)
  }

  /** Saving twice with the same input (Enter, then the blur of the removed
      input) is the same as saving once. */
  lemma EditTextIdempotent(a: Assignment, f: TextField, value: string)
    ensures EditText(EditText(a, f, value), f, value) == EditText(a, f, value)
  {
  }

  /** Saving the value the editor opened with changes nothing. */
  lemma EditTextUnchangedValue(a: Assignment, f: TextField)
    ensures EditText(a, f, FieldValue(a, f)) == a
  {
  }

  datatype Edited = Edited(record: Assignment, becameCompleted: bool)

  /** The status selector: the chosen label replaces the status; choosing
      "Completed" fires the celebration. */
  function EditStatus(a: Assignment, value: string): (r: Edited)
    ensures r.record == a.(status := value)
    ensures r.becameCompleted <==> value == Completed
  {
    Edited(a.(status := value), value == Completed)
  }

  /** The subject selector as written: the subject is replaced first, then
      the colour lookup runs. For a name no subject carries any more (a
      selector drawn before that subject was deleted) the lookup throws:
      the record keeps the new subject with the old colour, and nothing is
      saved. */
  datatype SubjectEditAsWritten = SubjectEditAsWritten(record: Assignment, saved: bool)

  function EditSubjectAsWritten(a: Assignment, subjects: seq<Subject>, value: string): (r: SubjectEditAsWritten)
    ensures r.record.subject == value
    ensures r.record.status == a.status && r.record.name == a.name && r.record.dueDate == a.dueDate
    ensures r.saved <==> HasSubject(subjects, value)
    ensures r.saved ==> ColorMatches(subjects, r.record)
    ensures !r.saved ==> r.record.color == a.color
  {
    var b := a.(subject := value);
    match ColorOf(subjects, value)
    case Some(color) => SubjectEditAsWritten(b.(color := color), true)
    case None => SubjectEditAsWritten(b, false)
  }

  /** A stale selector offering a deleted subject leaves a record whose
      colour is not its subject's, held only in memory. */
  lemma StaleSubjectEdit()
    ensures var subjects := [Subject("Art", "#845C66")];
            var a := Assignment("Art", "#845C66", "Ongoing", "Sketch", "2024-05-01");
            var r := EditSubjectAsWritten(a, subjects, "Math");
            !r.saved && r.record.subject == "Math" && !ColorMatches(subjects, r.record)
  {
    var subjects := [Subject("Art", "#845C66")];
    assert subjects[0].name != "Math";
  }

  /** The subject selector with the missing subject reported instead of
      thrown: on success the subject and its current colour are set
      together; on failure the record is untouched. */
  function EditSubject(a: Assignment, subjects: seq<Subject>, value: string): (r: Option<Assignment>)
    ensures r.Some? <==> HasSubject(subjects, value)
    ensures r.Some? ==> r.value.subject == value && ColorMatches(subjects, r.value)
    ensures r.Some? ==> r.value.status == a.status && r.value.name == a.name && r.value.dueDate == a.dueDate
  {
    match ColorOf(subjects, value)
    case Some(color) => Some(a.(subject := value, color := color))
    case None => None
  }

  /** Where the lookup succeeds the corrected edit and the handler as written agree. */
  lemma EditSubjectAgrees(a: Assignment, subjects: seq<Subject>, value: string)
    requires HasSubject(subjects, value)
    ensures EditSubject(a, subjects, value) == Some(EditSubjectAsWritten(a, subjects, value).record)
  {
  }

  /** Replace the record at `idx` (the edited object) and nothing else. */
  function UpdateAt(assignments: seq<Assignment>, idx: int, a: Assignment): (r: seq<Assignment>)
    requires 0 <= idx < |assignments|
    ensures |r| == |assignments| && r[idx] == a
    ensures forall j :: 0 <= j < |r| && j != idx ==> r[j] == assignments[j]
  {
    assignments[idx := a]
  }
}
