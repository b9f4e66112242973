/**
 The two persisted record kinds of the tracker and the one lookup that links
 them: an assignment takes its display colour from the first subject that
 carries its subject name.
 */
module Records {

  datatype Option<+T> = None | Some(value: T)

  /** A named category with a display colour (a `#RRGGBB` string). */
  datatype Subject = Subject(name: string, color: string)

  /** A task filed under a subject. `color` is a copy of the subject's colour
      taken when `subject` was last set; `status` is one of `StatusOptions`
      when it comes from the tracker's own selectors; `dueDate` is the
      `YYYY-MM-DD` value of a date input. */
  datatype Assignment = Assignment(
    subject: string,
    color: string,
    status: string,
    name: string,
    dueDate: string)

  /** The status labels offered by the status selector. */
  const StatusOptions: seq<string> := ["Not Started", "Ongoing", "Completed"]

  const Completed: string := "Completed"

  /** `i` is the position of the first subject named `name`. */
  ghost predicate IsFirstNamed(subjects: seq<Subject>, name: string, i: int)
  {
    0 <= i < |subjects| && subjects[i].name == name
    && forall j :: 0 <= j < i ==> subjects[j].name != name
  }

  /** `subjects.find(s => s.name === name).color`, with the missing subject
      made explicit as `None` instead of a property read on `undefined`. */
  function ColorOf(subjects: seq<Subject>, name: string): (r: Option<string>)
    ensures r.None? <==> forall j :: 0 <= j < |subjects| ==> subjects[j].name != name
    ensures r.Some? ==> exists i :: IsFirstNamed(subjects, name, i) && subjects[i].color == r.value
  {
    if |subjects| == 0 then
      None
    else if subjects[0].name == name then
      assert IsFirstNamed(subjects, name, 0);
      Some(subjects[0].color)
    else
      var r := ColorOf(subjects[1..], name);
      assert forall j :: 0 < j < |subjects| ==> subjects[j] == subjects[1..][j - 1];
      assert r.Some? ==> exists i :: IsFirstNamed(subjects, name, i) && subjects[i].color == r.value by {
        if r.Some? {
          var i :| IsFirstNamed(subjects[1..], name, i) && subjects[1..][i].color == r.value;
          assert IsFirstNamed(subjects, name, i + 1);
        }
      }
      r
  }

  /** Whatever the subjects after the first match are, the lookup does not
      see them: adding subjects never changes the colour an existing name
      resolves to. */
  lemma {:induction false} ColorOfStableUnderAppend(subjects: seq<Subject>, extra: seq<Subject>, name: string)
    requires ColorOf(subjects, name).Some?
    ensures ColorOf(subjects + extra, name) == ColorOf(subjects, name)
  {
    if subjects[0].name != name {
      assert (subjects + extra)[1..] == subjects[1..] + extra;
      ColorOfStableUnderAppend(subjects[1..], extra, name);
    }
  }
}
