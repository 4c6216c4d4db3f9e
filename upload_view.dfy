/**
 * `bulk_upload_view` once its form is valid: the spreadsheet, already read
 * into a header and rows of strings, is merged into the database in place.
 * The methods perform the loops of the view and are proved to leave the
 * database exactly as the functions of `Reconciler` say.
 */
module UploadView {
  import opened Wrappers
  import opened Text
  import opened Models
  import opened Sheet
  import opened Reconciler
  import UploadProps

  /** The Subject each subject column maps to, as the view's `subject_objs` dictionary holds it. */
  ghost predicate MapsSubjects(subjectObjs: map<string, SubjectKey>, subjects: seq<string>, classNum: int) {
    forall s :: s in subjects ==> s in subjectObjs && subjectObjs[s] == SubjectKey(Strip(s), classNum)
  }

  /** `get_or_create` of a Subject for each subject column, before any row is read. */
  method CreateSubjectRows(db: Db, subjects: seq<string>, classNum: int) returns (subjectObjs: map<string, SubjectKey>)
    modifies db
    ensures db.subjects == CreateSubjects(old(db.subjects), subjects, classNum)
    ensures db.students == old(db.students) && db.results == old(db.results)
    ensures MapsSubjects(subjectObjs, subjects, classNum)
  {
    subjectObjs := map[];
    var j := 0;
    while j < |subjects|
      invariant 0 <= j <= |subjects|
      invariant db.subjects == CreateSubjects(old(db.subjects), subjects[..j], classNum)
      invariant db.students == old(db.students) && db.results == old(db.results)
      invariant MapsSubjects(subjectObjs, subjects[..j], classNum)
    {
      var subject := SubjectKey(Strip(subjects[j]), classNum);
      CreateSubjectsStep(old(db.subjects), subjects, j, classNum);
      db.subjects := db.subjects + {subject};
      subjectObjs := subjectObjs[subjects[j] := subject];
      assert forall s :: s in subjects[..j + 1] ==> s in subjects[..j] || s == subjects[j];
      j := j + 1;
    }
    assert subjects[..j] == subjects;
  }

  /** `get_or_create` of the row's Student, then the father's-name update and `save()`. */
  method StoreStudent(db: Db, l: Layout, row: seq<string>, register: string)
    requires WellFormed(l) && Fits(l, row)
    modifies db
    ensures db.students == UpsertStudent(old(db.students), register, l, row)
    ensures db.subjects == old(db.subjects) && db.results == old(db.results)
  {
    var rawName := row[IndexOf(l.cols, NameColumn)];
    var name := if rawName != "nan" then Strip(rawName) else "";
    var fathers: Option<string> := None;
    if l.hasFathers && row[IndexOf(l.cols, FathersColumn)] != "nan" {
      fathers := Some(Strip(row[IndexOf(l.cols, FathersColumn)]));
    }
    var student: Student;
    if register in db.students {
      student := db.students[register];
    } else {
      student := Student(name, fathers, l.classNum);
      db.students := db.students[register := student];
    }
    if fathers.Some? && fathers.value != "" && student.fathersName != fathers {
      student := student.(fathersName := fathers);
      db.students := db.students[register := student];
    }
  }

  /** `update_or_create` of a Result for each subject cell holding a mark, in column order. */
  method StoreMarks(db: Db, l: Layout, row: seq<string>, register: string,
                    subjectObjs: map<string, SubjectKey>, parse: string -> Option<real>)
    requires WellFormed(l) && Fits(l, row)
    requires MapsSubjects(subjectObjs, l.subjects, l.classNum)
    modifies db
    ensures db.results == ApplyMarks(old(db.results), register, l, row, l.subjects, parse)
    ensures db.subjects == old(db.subjects) && db.students == old(db.students)
  {
    var k := 0;
    while k < |l.subjects|
      invariant 0 <= k <= |l.subjects|
      invariant db.results == ApplyMarks(old(db.results), register, l, row, l.subjects[..k], parse)
      invariant db.subjects == old(db.subjects) && db.students == old(db.students)
    {
      var subject := l.subjects[k];
      ApplyMarksStep(old(db.results), register, l, row, k, parse);
      assert subject in l.subjects;
      var markVal := Strip(row[IndexOf(l.cols, subject)]);
      ghost var mark := if markVal != "" && markVal != "nan" then parse(markVal) else None;
      assert mark == MarkOf(l, row, subject, parse);
      if markVal != "" && markVal != "nan" {
        var parsed := parse(markVal);
        if parsed.Some? {
          db.results := db.results[ResultKey(register, subjectObjs[subject]) := parsed.value];
        }
      }
      k := k + 1;
    }
    assert l.subjects[..k] == l.subjects;
  }

  /** One iteration of the row loop. */
  method StoreRow(db: Db, l: Layout, row: seq<string>, subjectObjs: map<string, SubjectKey>, parse: string -> Option<real>)
    requires WellFormed(l) && Fits(l, row)
    requires MapsSubjects(subjectObjs, l.subjects, l.classNum)
    modifies db
    ensures db.Snapshot() == ApplyRow(old(db.Snapshot()), l, row, parse)
  {
    var register := Strip(row[IndexOf(l.cols, RegisterColumn)]);
    if register != "nan" && register != "" {
      StoreStudent(db, l, row, register);
      StoreMarks(db, l, row, register, subjectObjs, parse);
    }
  }

  /** The row loop: the rows of the file in order. */
  method StoreRows(db: Db, l: Layout, rows: seq<seq<string>>, subjectObjs: map<string, SubjectKey>, parse: string -> Option<real>)
    requires WellFormed(l) && AllFit(l, rows)
    requires MapsSubjects(subjectObjs, l.subjects, l.classNum)
    modifies db
    ensures db.Snapshot() == ApplyRows(old(db.Snapshot()), l, rows, parse)
  {
    var i := 0;
    while i < |rows|
      invariant 0 <= i <= |rows|
      invariant db.Snapshot() == ApplyRows(old(db.Snapshot()), l, rows[..i], parse)
    {
      assert rows[..i + 1][..i] == rows[..i];
      StoreRow(db, l, rows[i], subjectObjs, parse);
      i := i + 1;
    }
    assert rows[..i] == rows;
  }

  /**
   * The upload: the two checks that reject the file before anything is
   * written, the Subject rows, then the rows of the file in order.
   */
  method BulkUpload(db: Db, fileName: string, header: seq<string>, rows: seq<seq<string>>,
                    classNum: int, parse: string -> Option<real>) returns (outcome: Outcome)
    requires 1 <= classNum <= 10
    requires forall row :: row in rows ==> |row| == |header|
    requires db.Valid()
    modifies db
    ensures db.Valid()
    ensures (outcome, db.Snapshot()) == Upload(old(db.Snapshot()), fileName, header, rows, classNum, parse)
  {
    if !(EndsWith(fileName, ".xlsx") || EndsWith(fileName, ".xls")) {
      return Err(NotExcelFile);
    }
    var cols := StripAll(header);
    if !(RegisterColumn in cols && NameColumn in cols) {
      return Err(MissingColumns);
    }
    var hasFathers := FathersColumn in cols;
    var subjects := SubjectColumns(cols, hasFathers);
    var l := Layout(cols, hasFathers, subjects, classNum);
    MakeLayoutWellFormed(header, classNum);
    UploadProps.UploadKeepsConsistent(old(db.Snapshot()), fileName, header, rows, classNum, parse);

    var subjectObjs := CreateSubjectRows(db, subjects, classNum);
    assert l == MakeLayout(header, classNum);
    ghost var start := db.Snapshot();
    assert start == old(db.Snapshot()).(subjects := CreateSubjects(old(db.subjects), subjects, classNum));
    StoreRows(db, l, rows, subjectObjs, parse);
    outcome := Ok;
    assert Upload(old(db.Snapshot()), fileName, header, rows, classNum, parse) == (Ok, ApplyRows(start, l, rows, parse));
  }
}
