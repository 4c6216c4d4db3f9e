/**
 * What a whole upload does to each Student and each Result, stated per key
 * over the rows in file order, and the consequences: later rows win,
 * uploading the same file twice is uploading it once, and the foreign keys
 * still hold afterwards.
 */
module UploadProps {
  import opened Wrappers
  import opened Text
  import opened Models
  import opened Sheet
  import opened Reconciler

  /** The row is processed (its register number is not blank) and is about student `register`. */
  predicate Names(l: Layout, row: seq<string>, register: string)
    requires WellFormed(l) && Fits(l, row)
  {
    !IsBlankRegister(RegisterOf(l, row)) && RegisterOf(l, row) == register
  }

  /** The Student that the first row about `register` would create, if some row is about it. */
  function FirstStudent(l: Layout, rows: seq<seq<string>>, register: string): Option<Student>
    requires WellFormed(l) && AllFit(l, rows)
  {
    if rows == [] then None
    else
      var earlier := FirstStudent(l, rows[..|rows| - 1], register);
      var row := rows[|rows| - 1];
      if earlier.Some? then earlier
      else if Names(l, row, register) then Some(NewStudent(l, row))
      else None
  }

  /** The last non-empty father's name a row about `register` gives, if any. */
  function LastFathers(l: Layout, rows: seq<seq<string>>, register: string): Option<string>
    requires WellFormed(l) && AllFit(l, rows)
  {
    if rows == [] then None
    else
      var row := rows[|rows| - 1];
      if Names(l, row, register) && GivenFathers(FathersOf(l, row)).Some? then GivenFathers(FathersOf(l, row))
      else LastFathers(l, rows[..|rows| - 1], register)
  }

  /** The mark the last row that stores one under `k` stores there, if any. */
  function LastMark(l: Layout, rows: seq<seq<string>>, k: ResultKey, parse: string -> Option<real>): Option<real>
    requires WellFormed(l) && AllFit(l, rows)
  {
    if rows == [] then None
    else
      var m := RowMark(l, rows[|rows| - 1], k, parse);
      if m.Some? then m else LastMark(l, rows[..|rows| - 1], k, parse)
  }

  /** Only a row about a student writes a father's name or a mark for it. */
  lemma {:induction false} LastValuesNeedARow(l: Layout, rows: seq<seq<string>>, k: ResultKey, parse: string -> Option<real>)
    requires WellFormed(l) && AllFit(l, rows)
    ensures LastFathers(l, rows, k.register).Some? ==> FirstStudent(l, rows, k.register).Some?
    ensures LastMark(l, rows, k, parse).Some? ==> FirstStudent(l, rows, k.register).Some?
    ensures LastMark(l, rows, k, parse).Some? ==> k.subject.studentClass == l.classNum && k.subject.name in l.subjects
  {
    if rows != [] {
      var prefix := rows[..|rows| - 1];
      assert forall row :: row in prefix ==> row in rows;
      LastValuesNeedARow(l, prefix, k, parse);
    }
  }

  function Base(students: map<string, Student>, l: Layout, rows: seq<seq<string>>, register: string): Student
    requires WellFormed(l) && AllFit(l, rows)
    requires register in students || FirstStudent(l, rows, register).Some?
  {
    if register in students then students[register] else FirstStudent(l, rows, register).value
  }

  /**
   * The Student a file leaves under a register number. A student no row is
   * about is untouched. Otherwise it is the stored student, or the one the
   * first row about it creates, with the last non-empty father's name given
   * for it: its name and class are never changed by a later row.
   */
  lemma {:induction false} StudentAfterRows(t: Tables, l: Layout, rows: seq<seq<string>>, parse: string -> Option<real>, register: string)
    requires WellFormed(l) && AllFit(l, rows)
    ensures var f := ApplyRows(t, l, rows, parse).students;
            if FirstStudent(l, rows, register).Some? then
              register in f && f[register] == WithFathers(Base(t.students, l, rows, register), LastFathers(l, rows, register))
            else
              (register in f <==> register in t.students) && (register in t.students ==> f[register] == t.students[register])
  {
    if rows != [] {
      var prefix := rows[..|rows| - 1];
      var row := rows[|rows| - 1];
      assert forall r :: r in prefix ==> r in rows;
      StudentAfterRows(t, l, prefix, parse, register);
      LastValuesNeedARow(l, prefix, ResultKey(register, SubjectKey("", 0)), parse);
      var before := ApplyRows(t, l, prefix, parse);
      var f := ApplyRows(t, l, rows, parse).students;
      assert ApplyRows(t, l, rows, parse) == ApplyRow(before, l, row, parse);
      if Names(l, row, register) {
        assert f == UpsertStudent(before.students, register, l, row);
      }
    }
  }

  /**
   * The Result a file leaves under a key: the mark of the last row that
   * stores one there, in file order; untouched when no row does.
   */
  lemma {:induction false} ResultAfterRows(t: Tables, l: Layout, rows: seq<seq<string>>, parse: string -> Option<real>, k: ResultKey)
    requires WellFormed(l) && AllFit(l, rows)
    ensures var f := ApplyRows(t, l, rows, parse).results;
            var m := LastMark(l, rows, k, parse);
            (m.Some? ==> k in f && f[k] == m.value)
            && (m.None? ==> (k in f <==> k in t.results) && (k in t.results ==> f[k] == t.results[k]))
  {
    if rows != [] {
      var prefix := rows[..|rows| - 1];
      assert forall r :: r in prefix ==> r in rows;
      ResultAfterRows(t, l, prefix, parse, k);
    }
  }

  lemma WithFathersTwice(s: Student, fathers: Option<string>)
    ensures WithFathers(WithFathers(s, fathers), fathers) == WithFathers(s, fathers)
  {
  }

  /** Running the row loop again over its own result changes nothing. */
  lemma RowsIdempotent(t: Tables, l: Layout, rows: seq<seq<string>>, parse: string -> Option<real>)
    requires WellFormed(l) && AllFit(l, rows)
    ensures var once := ApplyRows(t, l, rows, parse);
            ApplyRows(once, l, rows, parse) == once
  {
    var t1 := ApplyRows(t, l, rows, parse);
    var t2 := ApplyRows(t1, l, rows, parse);
    forall register
      ensures (register in t2.students <==> register in t1.students)
      ensures register in t1.students ==> t2.students[register] == t1.students[register]
    {
      StudentAfterRows(t, l, rows, parse, register);
      StudentAfterRows(t1, l, rows, parse, register);
      if FirstStudent(l, rows, register).Some? {
        WithFathersTwice(Base(t.students, l, rows, register), LastFathers(l, rows, register));
      }
    }
    forall k
      ensures (k in t2.results <==> k in t1.results)
      ensures k in t1.results ==> t2.results[k] == t1.results[k]
    {
      ResultAfterRows(t, l, rows, parse, k);
      ResultAfterRows(t1, l, rows, parse, k);
    }
    assert t2.students == t1.students;
    assert t2.results == t1.results;
  }

  /** Creating the Subject rows again over their own result changes nothing. */
  lemma CreateSubjectsTwice(subjects: set<SubjectKey>, names: seq<string>, classNum: int)
    ensures var once := CreateSubjects(subjects, names, classNum);
            CreateSubjects(once, names, classNum) == once
  {
    var once := CreateSubjects(subjects, names, classNum);
    CreateSubjectsContents(subjects, names, classNum);
    CreateSubjectsContents(once, names, classNum);
    assert forall k :: k in CreateSubjects(once, names, classNum) <==> k in once;
  }

  /** Running the same upload a second time leaves the tables as the first run left them. */
  lemma UploadIdempotent(t: Tables, fileName: string, header: seq<string>, rows: seq<seq<string>>,
                         classNum: int, parse: string -> Option<real>)
    requires forall row :: row in rows ==> |row| == |header|
    ensures var once := Upload(t, fileName, header, rows, classNum, parse);
            Upload(once.1, fileName, header, rows, classNum, parse) == once
  {
    var once := Upload(t, fileName, header, rows, classNum, parse);
    if once.0 == Ok {
      var l := MakeLayout(header, classNum);
      MakeLayoutWellFormed(header, classNum);
      var t0 := t.(subjects := CreateSubjects(t.subjects, l.subjects, classNum));
      var t1 := once.1;
      assert t1 == ApplyRows(t0, l, rows, parse);
      CreateSubjectsTwice(t.subjects, l.subjects, classNum);
      assert t1.(subjects := CreateSubjects(t1.subjects, l.subjects, classNum)) == t1;
      RowsIdempotent(t0, l, rows, parse);
    }
  }

  /** One row keeps every Result pointing at an existing Student and Subject, once its subject columns have their Subjects. */
  lemma RowKeepsConsistent(t: Tables, l: Layout, row: seq<string>, parse: string -> Option<real>)
    requires WellFormed(l) && Fits(l, row)
    requires Consistent(t)
    requires forall s :: s in l.subjects ==> SubjectKey(s, l.classNum) in t.subjects
    ensures Consistent(ApplyRow(t, l, row, parse))
  {
    var r := ApplyRow(t, l, row, parse);
    forall k | k in r.results
      ensures k.register in r.students && k.subject in r.subjects
    {
      if RowMark(l, row, k, parse).Some? {
        assert k.subject == SubjectKey(k.subject.name, l.classNum);
      }
    }
  }

  /** The row loop keeps every Result pointing at an existing Student and Subject. */
  lemma {:induction false} RowsKeepConsistent(t: Tables, l: Layout, rows: seq<seq<string>>, parse: string -> Option<real>)
    requires WellFormed(l) && AllFit(l, rows)
    requires Consistent(t)
    requires forall s :: s in l.subjects ==> SubjectKey(s, l.classNum) in t.subjects
    ensures Consistent(ApplyRows(t, l, rows, parse))
  {
    if rows != [] {
      var prefix := rows[..|rows| - 1];
      assert forall row :: row in prefix ==> row in rows;
      RowsKeepConsistent(t, l, prefix, parse);
      RowKeepsConsistent(ApplyRows(t, l, prefix, parse), l, rows[|rows| - 1], parse);
    }
  }

  /** An upload keeps every Result pointing at an existing Student and Subject. */
  lemma UploadKeepsConsistent(t: Tables, fileName: string, header: seq<string>, rows: seq<seq<string>>,
                              classNum: int, parse: string -> Option<real>)
    requires forall row :: row in rows ==> |row| == |header|
    requires Consistent(t)
    ensures Consistent(Upload(t, fileName, header, rows, classNum, parse).1)
  {
    if IsExcelName(fileName) && HasRequiredColumns(StripAll(header)) {
      var l := MakeLayout(header, classNum);
      MakeLayoutWellFormed(header, classNum);
      var t0 := t.(subjects := CreateSubjects(t.subjects, l.subjects, classNum));
      CreateSubjectsHasColumns(t.subjects, l.subjects, classNum);
      RowsKeepConsistent(t0, l, rows, parse);
    }
  }
}
