/**
 The table view: which assignments survive the subject, status and search
 filters, in what order, and how each surviving row is classified (urgency
 from the days left, and the "special" highlight).
 */
module TableView {
  import opened Records
  import opened Text
  import opened Special

  /** The three filter controls. An empty value means "all". `search` is the
      raw text of the search box. */
  datatype Filters = Filters(subject: string, status: string, search: string)

  datatype Urgency = Overdue | DueSoon | Normal

  /** The highlight of the days-left cell. */
  function Classify(days: int): (u: Urgency)
    ensures u.Overdue? <==> days < 0
    ensures u.DueSoon? <==> 0 <= days <= 3
    ensures u.Normal? <==> days > 3
  {
    if days < 0 then Overdue else if days <= 3 then DueSoon else Normal
  }

  function UrgencyRank(u: Urgency): nat
  {
    match u
    case Overdue => 0
    case DueSoon => 1
    case Normal => 2
  }

  /** Fewer days left never gives a milder highlight. */
  lemma ClassifyMonotone(d1: int, d2: int)
    requires d1 <= d2
    ensures UrgencyRank(Classify(d1)) <= UrgencyRank(Classify(d2))
  {
  }

  /** The filter condition as the table promises it: exact subject, exact
      status, and the lower-cased search text inside the lower-cased name. */
  ghost predicate Survives(f: Filters, a: Assignment)
  {
    && (f.subject == "" || a.subject == f.subject)
    && (f.status == "" || a.status == f.status)
    && Contains(Lower(a.name), Lower(f.search))
  }

  /** The three early returns of the row loop, in order. */
  predicate Passes(f: Filters, a: Assignment): (r: bool)
    ensures f == Filters("", "", "") ==> r
    ensures r ==> (f.subject == "" || a.subject == f.subject) && (f.status == "" || a.status == f.status)
  {
    var search := Lower(f.search);
    if f.subject != "" && a.subject != f.subject then false
    else if f.status != "" && a.status != f.status then false
    else if search != "" && !Includes(Lower(a.name), search) then false
    else true
  }

  lemma PassesIffSurvives(f: Filters, a: Assignment)
    ensures Passes(f, a) <==> Survives(f, a)
  {
    assert OccursAt(Lower(a.name), [], 0);
  }

  /** One table row: the record's position in the collection (used by its
      delete button), the record, its days left, highlight and flag. */
  datatype Row = Row(index: nat, record: Assignment, days: int, urgency: Urgency, special: bool)

  /** `r` is the row the table draws for the record at `r.index`. */
  ghost predicate RowOf(r: Row, assignments: seq<Assignment>, daysLeft: string -> int)
  {
    && r.index < |assignments|
    && r.record == assignments[r.index]
    && r.days == daysLeft(r.record.dueDate)
    && (r.urgency.Overdue? <==> r.days < 0)
    && (r.urgency.DueSoon? <==> 0 <= r.days <= 3)
    && (r.special <==> IsSpecialSpec(r.record.name))
  }

  function MakeRow(i: nat, a: Assignment, daysLeft: string -> int): Row
  {
    var d := daysLeft(a.dueDate);
    Row(i, a, d, Classify(d), IsSpecial(a.name))
  }

  lemma MakeRowIsRowOf(assignments: seq<Assignment>, i: nat, daysLeft: string -> int)
    requires i < |assignments|
    ensures RowOf(MakeRow(i, assignments[i], daysLeft), assignments, daysLeft)
  {
  }

  /** Every row is the row of a surviving record among the first `n`. */
  ghost predicate RowsSound(rows: seq<Row>, assignments: seq<Assignment>, f: Filters, daysLeft: string -> int, n: nat)
    requires n <= |assignments|
  {
    forall k :: 0 <= k < |rows| ==>
      rows[k].index < n && RowOf(rows[k], assignments, daysLeft) && Survives(f, assignments[rows[k].index])
  }

  /** Rows appear in collection order, each record at most once. */
  predicate Ascending(rows: seq<Row>)
  {
    forall k, l :: 0 <= k < l < |rows| ==> rows[k].index < rows[l].index
  }

  /** Every surviving record among the first `n` has a row. */
  ghost predicate RowsComplete(rows: seq<Row>, assignments: seq<Assignment>, f: Filters, n: nat)
    requires n <= |assignments|
  {
    forall i :: 0 <= i < n && Survives(f, assignments[i]) ==>
      exists k :: 0 <= k < |rows| && rows[k].index == i
  }

  /** A surviving record extends the rows by its own. */
  lemma AppendRow(rows: seq<Row>, assignments: seq<Assignment>, f: Filters, daysLeft: string -> int, n: nat)
    requires 0 < n <= |assignments| && Survives(f, assignments[n - 1])
    requires RowsSound(rows, assignments, f, daysLeft, n - 1) && Ascending(rows)
    requires RowsComplete(rows, assignments, f, n - 1)
    ensures var rows' := rows + [MakeRow(n - 1, assignments[n - 1], daysLeft)];
            RowsSound(rows', assignments, f, daysLeft, n) && Ascending(rows')
            && RowsComplete(rows', assignments, f, n)
  {
    var row := MakeRow(n - 1, assignments[n - 1], daysLeft);
    var rows' := rows + [row];
    MakeRowIsRowOf(assignments, n - 1, daysLeft);
    assert rows'[|rows|] == row;
    assert forall k :: 0 <= k < |rows| ==> rows'[k] == rows[k];
    forall k | 0 <= k < |rows'|
      ensures rows'[k].index < n && RowOf(rows'[k], assignments, daysLeft) && Survives(f, assignments[rows'[k].index])
    {
      if k < |rows| {
        assert rows'[k] == rows[k];
      }
    }
    forall k, l | 0 <= k < l < |rows'| ensures rows'[k].index < rows'[l].index {
      if l < |rows| {
        assert rows'[k] == rows[k] && rows'[l] == rows[l];
      } else {
        assert rows'[k] == rows[k] && rows[k].index < n - 1;
      }
    }
    forall i | 0 <= i < n && Survives(f, assignments[i])
      ensures exists k :: 0 <= k < |rows'| && rows'[k].index == i
    {
      if i < n - 1 {
        var k :| 0 <= k < |rows| && rows[k].index == i;
        assert rows'[k].index == i;
      } else {
        assert rows'[|rows|].index == i;
      }
    }
  }

  /** A filtered-out record adds no row. */
  lemma SkipRow(rows: seq<Row>, assignments: seq<Assignment>, f: Filters, daysLeft: string -> int, n: nat)
    requires 0 < n <= |assignments| && !Survives(f, assignments[n - 1])
    requires RowsSound(rows, assignments, f, daysLeft, n - 1)
    requires RowsComplete(rows, assignments, f, n - 1)
    ensures RowsSound(rows, assignments, f, daysLeft, n) && RowsComplete(rows, assignments, f, n)
  {
  }

  /** The rows drawn for the first `n` records. */
  function RowsUpTo(assignments: seq<Assignment>, f: Filters, daysLeft: string -> int, n: nat): (rows: seq<Row>)
    requires n <= |assignments|
    ensures RowsSound(rows, assignments, f, daysLeft, n)
    ensures Ascending(rows)
    ensures RowsComplete(rows, assignments, f, n)
  {
    if n == 0 then
      []
    else
      var prev := RowsUpTo(assignments, f, daysLeft, n - 1);
      var a := assignments[n - 1];
      PassesIffSurvives(f, a);
      if Passes(f, a) then
        AppendRow(prev, assignments, f, daysLeft, n);
        prev + [MakeRow(n - 1, a, daysLeft)]
      else
        SkipRow(prev, assignments, f, daysLeft, n);
        prev
  }

  /** `renderTable`: every record that passes the filters, in collection
      order, each exactly once. The collection itself is an input and is
      not changed. */
  function Rows(assignments: seq<Assignment>, f: Filters, daysLeft: string -> int): (rows: seq<Row>)
    ensures forall k :: 0 <= k < |rows| ==>
              RowOf(rows[k], assignments, daysLeft) && Survives(f, rows[k].record)
    ensures forall k, l :: 0 <= k < l < |rows| ==> rows[k].index < rows[l].index
    ensures forall i :: 0 <= i < |assignments| && Survives(f, assignments[i]) ==>
              exists k :: 0 <= k < |rows| && rows[k].index == i
  {
    RowsUpTo(assignments, f, daysLeft, |assignments|)
  }

  /** With only the subject filter set, the table lists exactly the records
      of that subject. */
  lemma SubjectFilterOnly(assignments: seq<Assignment>, subject: string, daysLeft: string -> int, i: nat)
    requires i < |assignments|
    ensures (exists k :: 0 <= k < |Rows(assignments, Filters(subject, "", ""), daysLeft)|
                         && Rows(assignments, Filters(subject, "", ""), daysLeft)[k].index == i)
            <==> (subject == "" || assignments[i].subject == subject)
  {
    var f := Filters(subject, "", "");
    var rows := Rows(assignments, f, daysLeft);
    assert OccursAt(Lower(assignments[i].name), Lower(""), 0);
    if exists k :: 0 <= k < |rows| && rows[k].index == i {
      var k :| 0 <= k < |rows| && rows[k].index == i;
      assert Survives(f, rows[k].record);
    }
  }

  /** An empty collection draws an empty table, whatever the filters. */
  lemma EmptyTable(f: Filters, daysLeft: string -> int)
    ensures Rows([], f, daysLeft) == []
  {
  }
}
