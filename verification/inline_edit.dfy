/**
 The inline editors of a table row. A cell either shows its value or holds
 one open editor; a click on a cell that already holds one does nothing.
 Saving re-draws the table, which closes the editor; a change whose colour
 lookup throws re-draws nothing and leaves the editor open.
 */
module InlineEdit {
  import opened Records
  import opened Repository

  /** The four editable cells of a row. */
  datatype Cell = NameCell | DateCell | StatusCell | SubjectCell

  predicate IsTextCell(c: Cell)
  {
    c.NameCell? || c.DateCell?
  }

  function FieldOf(c: Cell): TextField
    requires IsTextCell(c)
  {
    if c.NameCell? then NameField else DueDateField
  }

  /** The record property a cell shows. */
  function Current(a: Assignment, c: Cell): string
  {
    match c
    case NameCell => a.name
    case DateCell => a.dueDate
    case StatusCell => a.status
    case SubjectCell => a.subject
  }

  /** The labels a select cell offers: the three statuses, or the subject
      names as they were when the row was drawn. */
  function Options(c: Cell, subjectsAtRender: seq<Subject>): (r: seq<string>)
    ensures c.StatusCell? ==> r == StatusOptions
    ensures c.SubjectCell? ==> |r| == |subjectsAtRender|
                               && forall j :: 0 <= j < |r| ==> r[j] == subjectsAtRender[j].name
  {
    if c.SubjectCell? then seq(|subjectsAtRender|, j requires 0 <= j < |subjectsAtRender| => subjectsAtRender[j].name)
    else if c.StatusCell? then StatusOptions
    else []
  }

  /** The state of one cell: showing its value, an open text or date input
      holding some text, or an open select with its options and the chosen
      label. */
  datatype Editor = Closed | Typing(text: string) | Choosing(options: seq<string>, chosen: string)

  /** The label a freshly built select shows: the option equal to the
      current value, or the first option when none is. */
  function Preselected(options: seq<string>, current: string): (r: string)
    ensures current in options ==> r == current
    ensures current !in options && options != [] ==> r == options[0]
    ensures options == [] ==> r == ""
  {
    if current in options then current
    else if options != [] then options[0]
    else ""
  }

  /** The click handler of a cell. */
  function Click(e: Editor, c: Cell, a: Assignment, options: seq<string>): (r: Editor)
    ensures !e.Closed? ==> r == e
    ensures e.Closed? && IsTextCell(c) ==> r == Typing(Current(a, c))
    ensures e.Closed? && !IsTextCell(c) ==> r.Choosing? && r.options == options
    ensures e.Closed? && !IsTextCell(c) && Current(a, c) in options ==> r.chosen == Current(a, c)
  {
    if !e.Closed? then e
    else if IsTextCell(c) then Typing(Current(a, c))
    else Choosing(options, Preselected(options, Current(a, c)))
  }

  /** A second click changes nothing: at most one editor per cell. */
  lemma ClickIdempotent(e: Editor, c: Cell, a: Assignment, options: seq<string>)
    ensures Click(Click(e, c, a, options), c, a, options) == Click(e, c, a, options)
    ensures !Click(e, c, a, options).Closed?
  {
  }

  /** Typing into an open input replaces its text; with no input open
      there is nothing to type into. */
  function TypeText(e: Editor, text: string): (r: Editor)
    ensures e.Typing? ==> r == Typing(text)
    ensures !e.Typing? ==> r == e
  {
    if e.Typing? then Typing(text) else e
  }

  /** The result of committing an editor: the cell's new state and the
      record after the edit. */
  datatype Saved = Saved(editor: Editor, record: Assignment)

  /** Enter or blur on a text or date input. */
  function SaveText(e: Editor, c: Cell, a: Assignment): (r: Saved)
    requires e.Typing? && IsTextCell(c)
    ensures r.editor.Closed?
    ensures e.text == "" ==> r.record == a
    ensures e.text != "" ==> Current(r.record, c) == e.text
    ensures forall c' :: c' != c ==> Current(r.record, c') == Current(a, c')
    ensures r.record.color == a.color
  {
    Saved(Closed, EditText(a, FieldOf(c), e.text))
  }

  /** Opening a text cell and saving without typing leaves the record as it
      was: the input starts with the current value. */
  lemma OpenThenSaveKeeps(c: Cell, a: Assignment, options: seq<string>)
    requires IsTextCell(c)
    ensures SaveText(Click(Closed, c, a, options), c, a).record == a
  {
    EditTextUnchangedValue(a, FieldOf(c));
  }

  /** Enter saves, and the blur of the removed input saves the same text
      again: the record ends as after one save. */
  lemma EnterThenBlur(e: Editor, c: Cell, a: Assignment)
    requires e.Typing? && IsTextCell(c)
    ensures SaveText(e, c, SaveText(e, c, a).record).record == SaveText(e, c, a).record
  {
    EditTextIdempotent(a, FieldOf(c), e.text);
  }

  /** A change on an open select, as the handler does it. The chosen label
      is written into the record first. A status change then fires the
      celebration for "Completed", is saved and closes the select. A subject
      change then looks up the colour: when a subject carries the label the
      record takes its colour, is saved and the select closes; when none
      does (an option drawn before that subject was deleted) the lookup
      throws, so the record keeps the new label with its old colour,
      nothing is saved and the select stays open showing the picked label. */
  datatype Changed = Changed(editor: Editor, record: Assignment, becameCompleted: bool, saved: bool)

  function ChangeSelect(e: Editor, c: Cell, a: Assignment, subjects: seq<Subject>, value: string): (r: Changed)
    requires e.Choosing? && !IsTextCell(c)
    ensures Current(r.record, c) == value
    ensures forall c' :: c' != c ==> Current(r.record, c') == Current(a, c')
    ensures r.saved <==> !(c.SubjectCell? && !HasSubject(subjects, value))
    ensures r.saved ==> r.editor.Closed?
    ensures !r.saved ==> r.editor == e.(chosen := value) && r.record.color == a.color && !r.becameCompleted
    ensures c.StatusCell? ==> r.record.color == a.color && (r.becameCompleted <==> value == Completed)
    ensures c.SubjectCell? && r.saved ==> ColorMatches(subjects, r.record) && !r.becameCompleted
    ensures c.SubjectCell? && r.saved ==> EditSubject(a, subjects, value) == Some(r.record)
  {
    if c.StatusCell? then
      var ed := EditStatus(a, value);
      Changed(Closed, ed.record, ed.becameCompleted, true)
    else
      var w := EditSubjectAsWritten(a, subjects, value);
      if w.saved then
        EditSubjectAgrees(a, subjects, value);
        Changed(Closed, w.record, false, true)
      else
        Changed(e.(chosen := value), w.record, false, false)
  }

  /** Every label a subject select offers names a subject, as long as no
      subject was deleted since the row was drawn: the change is saved. */
  lemma FreshOptionsSaved(e: Editor, a: Assignment, subjects: seq<Subject>, j: int)
    requires e.Choosing? && 0 <= j < |subjects|
    ensures ChangeSelect(e, SubjectCell, a, subjects, Options(SubjectCell, subjects)[j]).saved
  {
    assert subjects[j].name == Options(SubjectCell, subjects)[j];
  }

  /** A row drawn while Math and Art existed, after Math was deleted:
      choosing "Math" leaves the select open on "Math" and the record filed
      under Math with Art's colour, unsaved. */
  lemma StaleOptionKeepsSelectOpen()
    ensures var drawn := [Subject("Math", "#B58463"), Subject("Art", "#845C66")];
            var subjects := [Subject("Art", "#845C66")];
            var a := Assignment("Art", "#845C66", "Ongoing", "Sketch", "2024-05-01");
            var e := Click(Closed, SubjectCell, a, Options(SubjectCell, drawn));
            var r := ChangeSelect(e, SubjectCell, a, subjects, "Math");
            && e == Choosing(["Math", "Art"], "Art")
            && !r.saved && r.editor == Choosing(["Math", "Art"], "Math")
            && r.record.subject == "Math" && r.record.color == "#845C66"
            && !ColorMatches(subjects, r.record)
  {
    var drawn := [Subject("Math", "#B58463"), Subject("Art", "#845C66")];
    var subjects := [Subject("Art", "#845C66")];
    assert Options(SubjectCell, drawn) == ["Math", "Art"];
    assert subjects[0].name != "Math";
  }
}
