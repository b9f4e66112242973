/**
 The subject registry: adding a subject from the name box and the colour
 swatches, deleting one by position, and marking which palette colours are
 already taken.
 */
module Registry {
  import opened Records
  import opened Text
  import Seqs

  /** The ten swatch colours, in display order. */
  const Palette: seq<string> := ["#B58463", "#845C66", "#6D4C41", "#8D6E63", "#3E2723",
                                 "#556B2F", "#8B4513", "#BC8F8F", "#607D8B", "#778899"]

  /** One palette entry as offered to the user: taken swatches are disabled. */
  datatype Swatch = Swatch(color: string, used: bool)

  /** Some subject's colour equals `color` ignoring letter case. */
  predicate ColorTaken(subjects: seq<Subject>, color: string)
  {
    exists i :: 0 <= i < |subjects| && Upper(subjects[i].color) == Upper(color)
  }

  /** The upper-cased subject colours (`usedColors`). */
  function UsedColors(subjects: seq<Subject>): (r: seq<string>)
    ensures |r| == |subjects|
    ensures forall i :: 0 <= i < |subjects| ==> r[i] == Upper(subjects[i].color)
  {
    seq(|subjects|, i requires 0 <= i < |subjects| => Upper(subjects[i].color))
  }

  /** The palette annotated with whether each colour is already used. */
  function Availability(subjects: seq<Subject>): (r: seq<Swatch>)
    ensures |r| == |Palette|
    ensures forall i :: 0 <= i < |r| ==> r[i].color == Palette[i]
    ensures forall i :: 0 <= i < |r| ==> (r[i].used <==> ColorTaken(subjects, Palette[i]))
  {
    var used := UsedColors(subjects);
    var r := seq(|Palette|, i requires 0 <= i < |Palette| => Swatch(Palette[i], Upper(Palette[i]) in used));
    assert forall i :: 0 <= i < |r| ==> (r[i].used <==> ColorTaken(subjects, Palette[i])) by {
      forall i | 0 <= i < |r| ensures r[i].used <==> ColorTaken(subjects, Palette[i]) {
        if r[i].used {
          var j :| 0 <= j < |used| && used[j] == Upper(Palette[i]);
          assert Upper(subjects[j].color) == Upper(Palette[i]);
        }
        if ColorTaken(subjects, Palette[i]) {
          var j :| 0 <= j < |subjects| && Upper(subjects[j].color) == Upper(Palette[i]);
          assert used[j] == Upper(Palette[i]);
        }
      }
    }
    r
  }

  /** Outcome of the add-subject handler: the new registry, and whether it
      changed (a rejected add writes nothing). */
  datatype SubjectAdd = SubjectAdd(subjects: seq<Subject>, added: bool)

  /** The add-subject handler: trim the name, give up on an empty name or an
      unselected colour, otherwise append. A colour already in use is NOT
      refused here; only the swatch display discourages it. */
  function AddSubject(subjects: seq<Subject>, nameInput: string, color: string): (r: SubjectAdd)
    ensures !r.added <==> AllWhitespace(nameInput) || color == ""
    ensures !r.added ==> r.subjects == subjects
    ensures r.added ==> r.subjects == subjects + [Subject(Trim(nameInput), color)]
    ensures r.added ==> r.subjects[|subjects|].name != [] && r.subjects[..|subjects|] == subjects
  {
    var name := Trim(nameInput);
    TrimEmptyIffBlank(nameInput);
    if name == [] || color == [] then SubjectAdd(subjects, false)
    else SubjectAdd(subjects + [Subject(name, color)], true)
  }

  /** `deleteSubject(idx)`: `subjects.splice(idx, 1)`. Assignments filed under
      the deleted subject are left as they are. */
  function DeleteSubject(subjects: seq<Subject>, idx: int): (r: seq<Subject>)
    ensures 0 <= idx < |subjects| ==> |r| == |subjects| - 1
    ensures 0 <= idx < |subjects| ==> r == subjects[..idx] + subjects[idx + 1..]
    ensures idx >= |subjects| ==> r == subjects
  {
    Seqs.RemoveAt(subjects, idx)
  }

  /** After a successful add, the chosen palette colour shows as used, and
      every colour that was used before still is. */
  lemma AddMarksColorUsed(subjects: seq<Subject>, nameInput: string, color: string)
    requires AddSubject(subjects, nameInput, color).added
    ensures forall i :: 0 <= i < |Palette| && Upper(Palette[i]) == Upper(color) ==>
              Availability(AddSubject(subjects, nameInput, color).subjects)[i].used
    ensures forall i :: 0 <= i < |Palette| && Availability(subjects)[i].used ==>
              Availability(AddSubject(subjects, nameInput, color).subjects)[i].used
  {
    var s' := AddSubject(subjects, nameInput, color).subjects;
    forall i | 0 <= i < |Palette| && Upper(Palette[i]) == Upper(color)
      ensures ColorTaken(s', Palette[i])
    {
      assert s'[|subjects|].color == color;
    }
    forall i | 0 <= i < |Palette| && ColorTaken(subjects, Palette[i])
      ensures ColorTaken(s', Palette[i])
    {
      var j :| 0 <= j < |subjects| && Upper(subjects[j].color) == Upper(Palette[i]);
      assert s'[j] == subjects[j];
    }
  }

  /** The registry does not keep colours distinct: a second subject may take
      a colour that differs from an existing one only in letter case. */
  lemma DuplicateColorAccepted()
    ensures var before := [Subject("Math", "#B58463")];
            var r := AddSubject(before, "Art", "#b58463");
            r.added && |r.subjects| == 2
            && Upper(r.subjects[0].color) == Upper(r.subjects[1].color)
  {
    var before := [Subject("Math", "#B58463")];
    assert !AllWhitespace("Art") by { assert !IsJsWhitespace("Art"[0]); }
    var lower, upper := "#b58463", "#B58463";
    assert Upper(lower) == upper by {
      forall i | 0 <= i < 7 ensures Upper(lower)[i] == upper[i] {
        assert UpperChar(lower[i]) == upper[i];
      }
    }
    assert Upper(upper) == upper by {
      forall i | 0 <= i < 7 ensures Upper(upper)[i] == upper[i] {
        assert UpperChar(upper[i]) == upper[i];
      }
    }
  }
}
