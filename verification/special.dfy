/**
 The "special assignment" test `/\b(quiz|exam|midterm)\b/i.test(name)`,
 shared by the table (which highlights the name) and the calendar (which
 marks the day as an exam day). The calendar spells the alternation
 `exam|midterm|quiz`; the order of alternatives does not change whether a
 match exists.
 */
module Special {
  import opened Text

  const Keywords: seq<string> := ["quiz", "exam", "midterm"]

  /** `\b` in front of a match starting at `i` whose first character is a
      letter: the start of the string or a non-word character before it. */
  predicate BoundaryBefore(s: string, i: int)
    requires 0 <= i <= |s|
  {
    i == 0 || !IsWordChar(s[i - 1])
  }

  /** `\b` after a match ending at `j` whose last character is a letter. */
  predicate BoundaryAfter(s: string, j: int)
    requires 0 <= j <= |s|
  {
    j == |s| || !IsWordChar(s[j])
  }

  /** Keyword `kw` (lower-case) matches `s` at `i` case-insensitively, with a
      word boundary on both sides. */
  predicate WordAt(s: string, kw: string, i: int)
  {
    0 <= i && i + |kw| <= |s|
    && Lower(s[i..i + |kw|]) == kw
    && BoundaryBefore(s, i) && BoundaryAfter(s, i + |kw|)
  }

  /** Some keyword occurs as a whole word at position `i`. */
  predicate SpecialAt(s: string, i: int)
  {
    WordAt(s, Keywords[0], i) || WordAt(s, Keywords[1], i) || WordAt(s, Keywords[2], i)
  }

  /** What the regex promises: a whole-word, case-insensitive occurrence of
      one of the keywords somewhere in the name. */
  ghost predicate IsSpecialSpec(s: string)
  {
    exists i :: SpecialAt(s, i)
  }

  /** The regex search: try every start position from `from` onward. */
  function SpecialFrom(s: string, from: nat): (r: bool)
    requires from <= |s| + 1
    ensures r <==> exists i :: from <= i && SpecialAt(s, i)
    decreases |s| + 1 - from
  {
    if from > |s| then
      assert forall i :: from <= i ==> !SpecialAt(s, i);
      false
    else if SpecialAt(s, from) then
      true
    else
      var r := SpecialFrom(s, from + 1);
      assert (exists i :: from <= i && SpecialAt(s, i)) ==> r by {
        if exists i :: from <= i && SpecialAt(s, i) {
          var i :| from <= i && SpecialAt(s, i);
          assert from + 1 <= i;
        }
      }
      r
  }

  /** `/\b(quiz|exam|midterm)\b/i.test(s)`. */
  function IsSpecial(s: string): (r: bool)
    ensures r <==> IsSpecialSpec(s)
  {
    SpecialFrom(s, 0)
  }

  lemma MidtermReviewIsSpecial()
    ensures IsSpecial("Midterm review")
  {
    var s := "Midterm review";
    assert s[0..7] == "Midterm";
    assert Lower("Midterm") == "midterm";
    assert WordAt(s, Keywords[2], 0);
    assert SpecialAt(s, 0);
  }

  lemma PreExamIsSpecial()
    ensures IsSpecial("Pre-exam QUIZ")
  {
    var s := "Pre-exam QUIZ";
    assert s[9..13] == "QUIZ";
    assert Lower("QUIZ") == "quiz";
    assert WordAt(s, Keywords[0], 9);
    assert SpecialAt(s, 9);
  }

  /** No keyword as a whole word: "Examine" only has "exam" followed by a
      letter. */
  lemma ExamineIsNotSpecial()
    ensures !IsSpecial("Examine")
  {
    var s := "Examine";
    forall i | SpecialAt(s, i) ensures false {
    }
  }

  /** The plural "exams" is not the word "exam". */
  lemma ExamsIsNotSpecial()
    ensures !IsSpecial("exams")
  {
    var s := "exams";
    forall i | SpecialAt(s, i) ensures false {
    }
  }
}
