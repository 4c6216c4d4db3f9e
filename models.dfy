/**
 * The three tables of the results application and their keys.
 *
 * A Student is identified by its register number (`unique=True`), a Subject by
 * the pair (name, class) (`unique_together`), and a Result by the pair
 * (student, subject) (`unique_together`). Keying each table by its natural key
 * as a map makes every uniqueness constraint hold by construction; the foreign
 * keys of Result become the predicate `Consistent`.
 */
module Models {
  import opened Wrappers

  /** A Student row without its key: `name` and `studentClass` are required, `fathersName` may be NULL. */
  datatype Student = Student(name: string, fathersName: Option<string>, studentClass: int)

  /** A Subject is nothing but its key: the same name in another class is another Subject. */
  datatype SubjectKey = SubjectKey(name: string, studentClass: int)

  /** The key of a Result: the register number of its student and the key of its subject. */
  datatype ResultKey = ResultKey(register: string, subject: SubjectKey)

  /** The contents of the database: at most one row per key in each table. */
  datatype Tables = Tables(
    students: map<string, Student>,
    subjects: set<SubjectKey>,
    results: map<ResultKey, real>)

  /** Every Result refers to an existing Student and an existing Subject (the two foreign keys). */
  predicate Consistent(t: Tables) {
    forall k :: k in t.results ==> k.register in t.students && k.subject in t.subjects
  }

  /** Deleting a Student deletes, by `on_delete=CASCADE`, every Result that refers to it. */
  function RemoveStudent(t: Tables, register: string): (r: Tables)
    ensures register !in r.students && r.students.Keys == t.students.Keys - {register}
    ensures forall x :: x in r.students ==> r.students[x] == t.students[x]
    ensures r.subjects == t.subjects
    ensures forall k :: k in r.results <==> k in t.results && k.register != register
    ensures forall k :: k in r.results ==> r.results[k] == t.results[k]
    ensures Consistent(t) ==> Consistent(r)
  {
    Tables(t.students - {register}, t.subjects,
           map k | k in t.results && k.register != register :: t.results[k])
  }

  /** Deleting a Subject deletes, by `on_delete=CASCADE`, every Result that refers to it. */
  function RemoveSubject(t: Tables, subject: SubjectKey): (r: Tables)
    ensures subject !in r.subjects && r.subjects == t.subjects - {subject}
    ensures r.students == t.students
    ensures forall k :: k in r.results <==> k in t.results && k.subject != subject
    ensures forall k :: k in r.results ==> r.results[k] == t.results[k]
    ensures Consistent(t) ==> Consistent(r)
  {
    Tables(t.students, t.subjects - {subject},
           map k | k in t.results && k.subject != subject :: t.results[k])
  }

  /** The database, with one field per table; the views read and update it in place. */
  class Db {
    var students: map<string, Student>
    var subjects: set<SubjectKey>
    var results: map<ResultKey, real>

    function Snapshot(): Tables
      reads this
    {
      Tables(students, subjects, results)
    }

    ghost predicate Valid()
      reads this
    {
      Consistent(Snapshot())
    }

    /** An empty database. */
    constructor ()
      ensures Valid()
      ensures Snapshot() == Tables(map[], {}, map[])
    {
      students := map[];
      subjects := {};
      results := map[];
    }

    /** `Student.delete()`: removes the student and, by cascade, its results. */
    method DeleteStudent(register: string)
      requires Valid()
      modifies this
      ensures Valid()
      ensures Snapshot() == RemoveStudent(old(Snapshot()), register)
    {
      results := map k | k in results && k.register != register :: results[k];
      students := students - {register};
    }

    /** `Subject.delete()`: removes the subject and, by cascade, its results. */
    method DeleteSubject(subject: SubjectKey)
      requires Valid()
      modifies this
      ensures Valid()
      ensures Snapshot() == RemoveSubject(old(Snapshot()), subject)
    {
      results := map k | k in results && k.subject != subject :: results[k];
      subjects := subjects - {subject};
    }
  }
}
