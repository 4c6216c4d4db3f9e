/**
 * The bulk upload: a spreadsheet of one class is merged into the three tables.
 * The pure functions below give the effect of each step on a `Tables` value;
 * `BulkUpload` performs the same steps in place on a `Db`, row by row and
 * column by column, and is proved to reach the state the functions describe.
 */
module Reconciler {
  import opened Wrappers
  import opened Text
  import opened Models
  import opened Sheet

  datatype UploadError = NotExcelFile | MissingColumns
  datatype Outcome = Ok | Err(error: UploadError)

  /** A father's name a row writes: only a given, non-empty one. */
  function GivenFathers(fathers: Option<string>): Option<string> {
    if fathers.Some? && fathers.value != "" then fathers else None
  }

  function WithFathers(s: Student, fathers: Option<string>): Student {
    if fathers.Some? then s.(fathersName := fathers) else s
  }

  /** The Student a row creates when its register number is new. */
  function NewStudent(l: Layout, row: seq<string>): Student
    requires WellFormed(l) && Fits(l, row)
  {
    Student(NameOf(l, row), FathersOf(l, row), l.classNum)
  }

  /**
   * `get_or_create` on the register number, then the father's-name update.
   * An existing student keeps its name and class; a father's name is replaced
   * only by a non-empty one and is never cleared; no other student changes.
   */
  function UpsertStudent(students: map<string, Student>, register: string, l: Layout, row: seq<string>): (r: map<string, Student>)
    requires WellFormed(l) && Fits(l, row)
    ensures register in r
    ensures forall x :: x != register ==> (x in r <==> x in students) && (x in students ==> r[x] == students[x])
    ensures register in students ==>
              r[register].name == students[register].name && r[register].studentClass == students[register].studentClass
    ensures register !in students ==> r[register].name == NameOf(l, row) && r[register].studentClass == l.classNum
    ensures r[register].fathersName ==
              if GivenFathers(FathersOf(l, row)).Some? then FathersOf(l, row)
              else if register in students then students[register].fathersName
              else FathersOf(l, row)
    ensures register in students && students[register].fathersName.Some? ==> r[register].fathersName.Some?
    ensures r[register] == WithFathers(if register in students then students[register] else NewStudent(l, row),
                                       GivenFathers(FathersOf(l, row)))
  {
    var student := if register in students then students[register] else NewStudent(l, row);
    var fathers := FathersOf(l, row);
    if fathers.Some? && fathers.value != "" && student.fathersName != fathers then
      students[register := student.(fathersName := fathers)]
    else
      students[register := student]
  }

  /** The Subject rows created before the row loop, one per subject column. */
  function CreateSubjects(subjects: set<SubjectKey>, names: seq<string>, classNum: int): (r: set<SubjectKey>)
    ensures subjects <= r
  {
    if names == [] then subjects
    else CreateSubjects(subjects, names[..|names| - 1], classNum) + {SubjectKey(Strip(names[|names| - 1]), classNum)}
  }

  /**
   * The Subjects afterwards: the old ones, plus (stripped column label, class)
   * for each subject column, and no others.
   */
  lemma {:induction false} CreateSubjectsContents(subjects: set<SubjectKey>, names: seq<string>, classNum: int)
    ensures forall k :: k in CreateSubjects(subjects, names, classNum) <==>
              k in subjects || (k.studentClass == classNum && exists i :: 0 <= i < |names| && Strip(names[i]) == k.name)
    decreases |names|
  {
    if names != [] {
      var prefix := names[..|names| - 1];
      CreateSubjectsContents(subjects, prefix, classNum);
      assert forall i :: 0 <= i < |prefix| ==> prefix[i] == names[i];
    }
  }

  /** Every stripped subject column has its Subject afterwards. */
  lemma {:induction false} CreateSubjectsHasColumns(subjects: set<SubjectKey>, names: seq<string>, classNum: int)
    requires forall s :: s in names ==> IsStripped(s)
    ensures forall s :: s in names ==> SubjectKey(s, classNum) in CreateSubjects(subjects, names, classNum)
    decreases |names|
  {
    if names != [] {
      var prefix := names[..|names| - 1];
      var last := names[|names| - 1];
      assert names == prefix + [last];
      CreateSubjectsHasColumns(subjects, prefix, classNum);
      StrippedIsFixed(last);
    }
  }

  /** One more subject column: its Subject is added. */
  lemma CreateSubjectsStep(subjects: set<SubjectKey>, names: seq<string>, j: nat, classNum: int)
    requires j < |names|
    ensures CreateSubjects(subjects, names[..j + 1], classNum)
            == CreateSubjects(subjects, names[..j], classNum) + {SubjectKey(Strip(names[j]), classNum)}
  {
    assert names[..j + 1][..j] == names[..j];
  }

  /** The mark that the subject columns `subjects` of `row` give to the key `k`, for a row of student `register`. */
  function CellMark(l: Layout, row: seq<string>, register: string, subjects: seq<string>, k: ResultKey, parse: string -> Option<real>): Option<real>
    requires WellFormed(l) && Fits(l, row)
    requires forall s :: s in subjects ==> s in l.subjects
  {
    if k.register == register && k.subject.studentClass == l.classNum && k.subject.name in subjects
    then MarkOf(l, row, k.subject.name, parse)
    else None
  }

  /** `update_or_create` of a Result for each subject column, in column order. */
  function ApplyMarks(results: map<ResultKey, real>, register: string, l: Layout, row: seq<string>,
                      subjects: seq<string>, parse: string -> Option<real>): map<ResultKey, real>
    requires WellFormed(l) && Fits(l, row)
    requires forall s :: s in subjects ==> s in l.subjects
  {
    if subjects == [] then results
    else
      var subject := subjects[|subjects| - 1];
      var before := ApplyMarks(results, register, l, row, subjects[..|subjects| - 1], parse);
      match MarkOf(l, row, subject, parse)
      case Some(m) => before[ResultKey(register, SubjectKey(Strip(subject), l.classNum)) := m]
      case None => before
  }

  /** The column loop after one more column: the `k`-th subject column's mark, if any, overwrites its Result. */
  lemma ApplyMarksStep(results: map<ResultKey, real>, register: string, l: Layout, row: seq<string>,
                       k: nat, parse: string -> Option<real>)
    requires WellFormed(l) && Fits(l, row)
    requires k < |l.subjects|
    ensures forall s :: s in l.subjects[..k] ==> s in l.subjects
    ensures var before := ApplyMarks(results, register, l, row, l.subjects[..k], parse);
            var m := MarkOf(l, row, l.subjects[k], parse);
            ApplyMarks(results, register, l, row, l.subjects[..k + 1], parse)
            == if m.Some? then before[ResultKey(register, SubjectKey(Strip(l.subjects[k]), l.classNum)) := m.value] else before
  {
    var done := l.subjects[..k + 1];
    assert done[..k] == l.subjects[..k] && done[k] == l.subjects[k];
    assert forall s :: s in done ==> s in l.subjects;
  }

  /** The mark the last of the columns `subjects` that writes `k` stores there, if any. */
  function ColumnMark(l: Layout, row: seq<string>, register: string, subjects: seq<string>, k: ResultKey,
                      parse: string -> Option<real>): Option<real>
    requires WellFormed(l) && Fits(l, row)
    requires forall s :: s in subjects ==> s in l.subjects
  {
    if subjects == [] then None
    else
      var subject := subjects[|subjects| - 1];
      var mark := MarkOf(l, row, subject, parse);
      if k == ResultKey(register, SubjectKey(Strip(subject), l.classNum)) && mark.Some? then mark
      else ColumnMark(l, row, register, subjects[..|subjects| - 1], k, parse)
  }

  lemma {:induction false} MarksByColumn(results: map<ResultKey, real>, register: string, l: Layout, row: seq<string>,
                                         subjects: seq<string>, parse: string -> Option<real>, k: ResultKey)
    requires WellFormed(l) && Fits(l, row)
    requires forall s :: s in subjects ==> s in l.subjects
    ensures var r := ApplyMarks(results, register, l, row, subjects, parse);
            var m := ColumnMark(l, row, register, subjects, k, parse);
            (m.Some? ==> k in r && r[k] == m.value)
            && (m.None? ==> (k in r <==> k in results) && (k in results ==> r[k] == results[k]))
    decreases |subjects|
  {
    if subjects != [] {
      var prefix := subjects[..|subjects| - 1];
      var subject := subjects[|subjects| - 1];
      assert forall s :: s in prefix ==> s in subjects;
      MarksByColumn(results, register, l, row, prefix, parse, k);
      var before := ApplyMarks(results, register, l, row, prefix, parse);
      var key := ResultKey(register, SubjectKey(Strip(subject), l.classNum));
      var mark := MarkOf(l, row, subject, parse);
      assert ApplyMarks(results, register, l, row, subjects, parse)
             == if mark.Some? then before[key := mark.value] else before;
      assert ColumnMark(l, row, register, subjects, k, parse)
             == if k == key && mark.Some? then mark else ColumnMark(l, row, register, prefix, k, parse);
    }
  }

  /**
   * Columns with the same name read the same cell, so the last column that
   * writes `k` writes what every column named after `k`'s subject would.
   */
  lemma {:induction false} ColumnMarkIsCellMark(l: Layout, row: seq<string>, register: string, subjects: seq<string>,
                                                k: ResultKey, parse: string -> Option<real>)
    requires WellFormed(l) && Fits(l, row)
    requires forall s :: s in subjects ==> s in l.subjects
    ensures ColumnMark(l, row, register, subjects, k, parse) == CellMark(l, row, register, subjects, k, parse)
    decreases |subjects|
  {
    if subjects != [] {
      var prefix := subjects[..|subjects| - 1];
      var subject := subjects[|subjects| - 1];
      assert subjects == prefix + [subject];
      assert forall s :: s in prefix ==> s in subjects;
      ColumnMarkIsCellMark(l, row, register, prefix, k, parse);
      assert subject in l.subjects;
      if k.register == register && k.subject.studentClass == l.classNum && k.subject.name == subject {
        assert subject in prefix ==> CellMark(l, row, register, prefix, k, parse) == MarkOf(l, row, subject, parse);
      } else if k.register == register && k.subject.studentClass == l.classNum {
        assert k.subject.name != subject;
        assert k.subject.name in subjects <==> k.subject.name in prefix;
      }
    }
  }

  /**
   * Each subject cell decides its own Result: a parsed mark is stored under
   * (student, subject), anything else leaves that Result as it was, and the
   * other columns are processed whatever happened to this one.
   */
  lemma MarksOfRow(results: map<ResultKey, real>, register: string, l: Layout, row: seq<string>,
                   subjects: seq<string>, parse: string -> Option<real>, k: ResultKey)
    requires WellFormed(l) && Fits(l, row)
    requires forall s :: s in subjects ==> s in l.subjects
    ensures var r := ApplyMarks(results, register, l, row, subjects, parse);
            var m := CellMark(l, row, register, subjects, k, parse);
            (m.Some? ==> k in r && r[k] == m.value)
            && (m.None? ==> (k in r <==> k in results) && (k in results ==> r[k] == results[k]))
  {
    MarksByColumn(results, register, l, row, subjects, parse, k);
    ColumnMarkIsCellMark(l, row, register, subjects, k, parse);
  }

  lemma MarksOfRowAll(results: map<ResultKey, real>, register: string, l: Layout, row: seq<string>,
                      subjects: seq<string>, parse: string -> Option<real>)
    requires WellFormed(l) && Fits(l, row)
    requires forall s :: s in subjects ==> s in l.subjects
    ensures forall k :: CellMark(l, row, register, subjects, k, parse).Some? ==>
              var r := ApplyMarks(results, register, l, row, subjects, parse);
              k in r && r[k] == CellMark(l, row, register, subjects, k, parse).value
    ensures forall k :: CellMark(l, row, register, subjects, k, parse).None? ==>
              var r := ApplyMarks(results, register, l, row, subjects, parse);
              (k in r <==> k in results) && (k in results ==> r[k] == results[k])
  {
    forall k {
      MarksOfRow(results, register, l, row, subjects, parse, k);
    }
  }

  /** The mark that `row` stores under `k`, if any. */
  function RowMark(l: Layout, row: seq<string>, k: ResultKey, parse: string -> Option<real>): Option<real>
    requires WellFormed(l) && Fits(l, row)
  {
    var register := RegisterOf(l, row);
    if IsBlankRegister(register) then None else CellMark(l, row, register, l.subjects, k, parse)
  }

  /** One row of the loop: skipped when its register number is blank. */
  function ApplyRow(t: Tables, l: Layout, row: seq<string>, parse: string -> Option<real>): (r: Tables)
    requires WellFormed(l) && Fits(l, row)
    ensures IsBlankRegister(RegisterOf(l, row)) ==> r == t
    ensures r.subjects == t.subjects
    ensures !IsBlankRegister(RegisterOf(l, row)) ==> r.students == UpsertStudent(t.students, RegisterOf(l, row), l, row)
    ensures forall k :: RowMark(l, row, k, parse).Some? ==> k in r.results && r.results[k] == RowMark(l, row, k, parse).value
    ensures forall k :: RowMark(l, row, k, parse).None? ==>
              (k in r.results <==> k in t.results) && (k in t.results ==> r.results[k] == t.results[k])
  {
    var register := RegisterOf(l, row);
    if IsBlankRegister(register) then t
    else
      var results := ApplyMarks(t.results, register, l, row, l.subjects, parse);
      assert forall k :: RowMark(l, row, k, parse) == CellMark(l, row, register, l.subjects, k, parse);
      MarksOfRowAll(t.results, register, l, row, l.subjects, parse);
      Tables(UpsertStudent(t.students, register, l, row), t.subjects, results)
  }

  predicate AllFit(l: Layout, rows: seq<seq<string>>) {
    forall row :: row in rows ==> Fits(l, row)
  }

  /** The row loop: the rows in file order. */
  function ApplyRows(t: Tables, l: Layout, rows: seq<seq<string>>, parse: string -> Option<real>): (r: Tables)
    requires WellFormed(l) && AllFit(l, rows)
    ensures r.subjects == t.subjects
  {
    if rows == [] then t
    else ApplyRow(ApplyRows(t, l, rows[..|rows| - 1], parse), l, rows[|rows| - 1], parse)
  }

  /**
   * The whole upload. A wrong extension or a header without the two required
   * columns is rejected before anything is written; otherwise a Subject exists
   * afterwards for every subject column, whatever the rows hold.
   */
  function Upload(t: Tables, fileName: string, header: seq<string>, rows: seq<seq<string>>,
                  classNum: int, parse: string -> Option<real>): (r: (Outcome, Tables))
    requires forall row :: row in rows ==> |row| == |header|
    ensures r.0 == Err(NotExcelFile) <==> !IsExcelName(fileName)
    ensures r.0 == Err(MissingColumns) <==> IsExcelName(fileName) && !HasRequiredColumns(StripAll(header))
    ensures r.0.Err? ==> r.1 == t
    ensures r.0 == Ok ==> forall s :: s in MakeLayout(header, classNum).subjects ==> SubjectKey(s, classNum) in r.1.subjects
    ensures t.subjects <= r.1.subjects
  {
    if !IsExcelName(fileName) then (Err(NotExcelFile), t)
    else if !HasRequiredColumns(StripAll(header)) then (Err(MissingColumns), t)
    else
      var l := MakeLayout(header, classNum);
      MakeLayoutWellFormed(header, classNum);
      var subjects := CreateSubjects(t.subjects, l.subjects, classNum);
      CreateSubjectsHasColumns(t.subjects, l.subjects, classNum);
      (Ok, ApplyRows(t.(subjects := subjects), l, rows, parse))
  }
}
