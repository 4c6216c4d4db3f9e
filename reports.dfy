/**
 * The read-only views over the tables: a student's total, the class result
 * table, and the rank list with its toppers. A query's row order is whatever
 * the database returns; it is a parameter here, constrained only to list each
 * row of the table exactly once.
 */
module Reports {
  import opened Wrappers
  import opened Models

  /**
   * `order` lists every element of `rows` exactly once. The first conjunct
   * follows from the second; it is spelled out so that the solver can use
   * membership without unfolding multisets.
   */
  predicate Enumerates<T>(order: seq<T>, rows: set<T>) {
    && (forall x :: x in order ==> x in rows)
    && multiset(order) == multiset(rows)
  }

  /** Every Result named in `order` is stored. */
  predicate Stored(results: map<ResultKey, real>, order: seq<ResultKey>) {
    forall k :: k in order ==> k in results
  }

  /** What the Result `k` adds to the total of student `register`. */
  function Share(results: map<ResultKey, real>, k: ResultKey, register: string): real
    requires k in results
  {
    if k.register == register then results[k] else 0.0
  }

  /**
   * `Sum('results__marks')` for one student, taken over the Result rows in the
   * order given; a student without results totals 0 (the view's `or 0`).
   */
  function TotalMarks(results: map<ResultKey, real>, order: seq<ResultKey>, register: string): (total: real)
    requires Stored(results, order)
    ensures (forall k :: k in order ==> k.register != register) ==> total == 0.0
  {
    if order == [] then 0.0
    else
      var prefix := order[..|order| - 1];
      assert forall k :: k in prefix ==> k in order;
      TotalMarks(results, prefix, register) + Share(results, order[|order| - 1], register)
  }

  /** `order` with its `j`-th element taken out. */
  function Without<T>(order: seq<T>, j: nat): (rest: seq<T>)
    requires j < |order|
    ensures |rest| == |order| - 1
    ensures multiset(rest) == multiset(order) - multiset{order[j]}
  {
    assert order == order[..j] + [order[j]] + order[j + 1..];
    order[..j] + order[j + 1..]
  }

  /** The total over two runs of Results one after the other is the sum of their totals. */
  lemma {:induction false} TotalAppend(results: map<ResultKey, real>, a: seq<ResultKey>, b: seq<ResultKey>, register: string)
    requires Stored(results, a) && Stored(results, b)
    ensures Stored(results, a + b)
    ensures TotalMarks(results, a + b, register) == TotalMarks(results, a, register) + TotalMarks(results, b, register)
    decreases |b|
  {
    if b == [] {
      assert a + b == a;
    } else {
      var front := b[..|b| - 1];
      var last := b[|b| - 1];
      assert Stored(results, front) by {
        assert forall k :: k in front ==> k in b;
      }
      assert (a + b)[..|a + b| - 1] == a + front;
      assert (a + b)[|a + b| - 1] == last;
      TotalAppend(results, a, front, register);
      assert TotalMarks(results, b, register) == TotalMarks(results, front, register) + Share(results, last, register);
    }
  }

  /** Taking one Result out of the order takes exactly its share out of the total. */
  lemma TotalWithout(results: map<ResultKey, real>, order: seq<ResultKey>, j: nat, register: string)
    requires Stored(results, order)
    requires j < |order|
    ensures Stored(results, Without(order, j))
    ensures TotalMarks(results, order, register)
            == TotalMarks(results, Without(order, j), register) + Share(results, order[j], register)
  {
    var before := order[..j];
    var after := order[j + 1..];
    assert order == before + [order[j]] + after;
    assert Stored(results, before) && Stored(results, after) by {
      assert forall k :: k in before ==> k in order;
      assert forall k :: k in after ==> k in order;
    }
    assert TotalMarks(results, [order[j]], register) == Share(results, order[j], register);
    TotalAppend(results, before, [order[j]], register);
    TotalAppend(results, before + [order[j]], after, register);
    TotalAppend(results, before, after, register);
  }

  /** The last element of `order1` sits somewhere in a permutation `order2`; taking it out of both leaves permutations. */
  lemma PickLast<T>(order1: seq<T>, order2: seq<T>) returns (j: nat)
    requires order1 != []
    requires multiset(order1) == multiset(order2)
    ensures j < |order2| && order2[j] == order1[|order1| - 1]
    ensures multiset(order1[..|order1| - 1]) == multiset(Without(order2, j))
  {
    var n := |order1|;
    var x := order1[n - 1];
    assert order1 == order1[..n - 1] + [x];
    assert multiset(order1) == multiset(order1[..n - 1]) + multiset{x};
    assert x in multiset(order2);
    j :| 0 <= j < |order2| && order2[j] == x;
  }

  /** A total does not depend on the order in which the database returns the Result rows. */
  lemma {:induction false} TotalOrderIndependent(results: map<ResultKey, real>, order1: seq<ResultKey>,
                                                 order2: seq<ResultKey>, register: string)
    requires Stored(results, order1)
    requires Stored(results, order2)
    requires multiset(order1) == multiset(order2)
    ensures TotalMarks(results, order1, register) == TotalMarks(results, order2, register)
    decreases |order1|
  {
    if order1 == [] {
      assert |multiset(order2)| == 0;
    } else {
      var prefix := order1[..|order1| - 1];
      assert Stored(results, prefix) by {
        assert forall k :: k in prefix ==> k in order1;
      }
      var j := PickLast(order1, order2);
      TotalWithout(results, order2, j, register);
      TotalOrderIndependent(results, prefix, Without(order2, j), register);
    }
  }

  /** The student `register` has a Result for a subject named `name` at position `i`. */
  predicate NamedAt(order: seq<ResultKey>, i: int, register: string, name: string)
    requires 0 <= i < |order|
  {
    order[i].register == register && order[i].subject.name == name
  }

  /**
   * The view's `res_dict`: subject name to mark over the student's Results in
   * query order, a later Result overwriting an earlier one of the same name.
   */
  function ResDict(results: map<ResultKey, real>, order: seq<ResultKey>, register: string): map<string, real>
    requires Stored(results, order)
  {
    if order == [] then map[]
    else
      var prefix := order[..|order| - 1];
      assert forall k :: k in prefix ==> k in order;
      var k := order[|order| - 1];
      var d := ResDict(results, prefix, register);
      if k.register == register then d[k.subject.name := results[k]] else d
  }

  /** A name is in `res_dict` exactly when the student has a Result for a subject of that name. */
  lemma {:induction false} ResDictKeys(results: map<ResultKey, real>, order: seq<ResultKey>, register: string, name: string)
    requires Stored(results, order)
    ensures name in ResDict(results, order, register) <==> exists i :: 0 <= i < |order| && NamedAt(order, i, register, name)
    decreases |order|
  {
    if order != [] {
      var n := |order|;
      var prefix := order[..n - 1];
      assert forall k :: k in prefix ==> k in order;
      ResDictKeys(results, prefix, register, name);
      assert forall i :: 0 <= i < n - 1 ==> (NamedAt(prefix, i, register, name) <==> NamedAt(order, i, register, name));
      if NamedAt(order, n - 1, register, name) {
        assert name in ResDict(results, order, register);
      }
    }
  }

  /** Position `i` holds the student's last Result for a subject named `name`. */
  predicate LastNamedAt(order: seq<ResultKey>, i: int, register: string, name: string)
    requires 0 <= i < |order|
  {
    NamedAt(order, i, register, name) && forall j :: i < j < |order| ==> !NamedAt(order, j, register, name)
  }

  /** A later Result for the same subject name overwrites an earlier one in `res_dict`. */
  lemma {:induction false} ResDictIsLast(results: map<ResultKey, real>, order: seq<ResultKey>, register: string, name: string)
    requires Stored(results, order)
    requires name in ResDict(results, order, register)
    ensures exists i :: 0 <= i < |order| && LastNamedAt(order, i, register, name)
                        && ResDict(results, order, register)[name] == results[order[i]]
    decreases |order|
  {
    var n := |order|;
    var prefix := order[..n - 1];
    assert forall k :: k in prefix ==> k in order;
    if NamedAt(order, n - 1, register, name) {
      assert LastNamedAt(order, n - 1, register, name);
      assert ResDict(results, order, register)[name] == results[order[n - 1]];
    } else {
      assert name in ResDict(results, prefix, register);
      assert ResDict(results, order, register)[name] == ResDict(results, prefix, register)[name];
      ResDictIsLast(results, prefix, register, name);
      var i :| 0 <= i < |prefix| && LastNamedAt(prefix, i, register, name)
               && ResDict(results, prefix, register)[name] == results[prefix[i]];
      assert LastNamedAt(order, i, register, name) by {
        assert NamedAt(order, i, register, name);
        forall j | i < j < n ensures !NamedAt(order, j, register, name) {
          if j < n - 1 {
            assert !NamedAt(prefix, j, register, name);
          }
        }
      }
      assert ResDict(results, order, register)[name] == results[order[i]];
    }
  }

  /** When the student has a single Result for a subject name, `res_dict` holds that Result's mark. */
  lemma ResDictOfOnlyResult(results: map<ResultKey, real>, order: seq<ResultKey>, key: ResultKey)
    requires Enumerates(order, results.Keys)
    requires key in results
    requires forall k :: k in results && k.register == key.register && k.subject.name == key.subject.name ==> k == key
    ensures key.subject.name in ResDict(results, order, key.register)
    ensures ResDict(results, order, key.register)[key.subject.name] == results[key]
  {
    assert key in multiset(order);
    var i :| 0 <= i < |order| && order[i] == key;
    assert NamedAt(order, i, key.register, key.subject.name);
    ResDictKeys(results, order, key.register, key.subject.name);
    ResDictIsLast(results, order, key.register, key.subject.name);
  }

  /** An entry of the class table: the stored mark or "-". */
  datatype Cell = Mark(value: real) | Dash

  /** One row of the class table: the student, one entry per subject, and the total. */
  datatype ClassRow = ClassRow(register: string, student: Student, marks: seq<Cell>, total: real)

  function ClassRegisters(t: Tables, classNum: int): set<string> {
    set r | r in t.students && t.students[r].studentClass == classNum
  }

  function ClassSubjects(t: Tables, classNum: int): set<SubjectKey> {
    set k | k in t.subjects && k.studentClass == classNum
  }

  /** `res_dict.get(name, "-")`. */
  function CellFor(d: map<string, real>, name: string): Cell {
    if name in d then Mark(d[name]) else Dash
  }

  /** The entries of one row of the class table, one per subject, in order. */
  method MarksRow(resDict: map<string, real>, subjects: seq<SubjectKey>) returns (marksList: seq<Cell>)
    ensures |marksList| == |subjects|
    ensures forall q :: 0 <= q < |subjects| ==> marksList[q] == CellFor(resDict, subjects[q].name)
  {
    marksList := [];
    var j := 0;
    while j < |subjects|
      invariant 0 <= j <= |subjects|
      invariant |marksList| == j
      invariant forall q :: 0 <= q < j ==> marksList[q] == CellFor(resDict, subjects[q].name)
    {
      var name := subjects[j].name;
      marksList := marksList + [if name in resDict then Mark(resDict[name]) else Dash];
      j := j + 1;
    }
  }

  /**
   * `class_result_view`: a row per student of the class in query order, each
   * with one entry per Subject of the class in query order, and the total.
   */
  method ClassResult(db: Db, classNum: int, students: seq<string>, subjects: seq<SubjectKey>,
                     resultOrder: seq<ResultKey>) returns (data: seq<ClassRow>)
    requires Enumerates(students, ClassRegisters(db.Snapshot(), classNum))
    requires Enumerates(subjects, ClassSubjects(db.Snapshot(), classNum))
    requires Enumerates(resultOrder, db.results.Keys)
    ensures |data| == |students|
    ensures forall i :: 0 <= i < |data| ==>
              && data[i].register == students[i]
              && students[i] in db.students
              && data[i].student == db.students[students[i]]
              && data[i].student.studentClass == classNum
    ensures forall i :: 0 <= i < |data| ==> |data[i].marks| == |subjects|
    ensures forall i, j :: 0 <= i < |data| && 0 <= j < |subjects| ==>
              data[i].marks[j] == CellFor(ResDict(db.results, resultOrder, students[i]), subjects[j].name)
    ensures forall i :: 0 <= i < |data| ==> data[i].total == TotalMarks(db.results, resultOrder, students[i])
  {
    data := [];
    var i := 0;
    while i < |students|
      invariant 0 <= i <= |students|
      invariant |data| == i
      invariant forall p :: 0 <= p < i ==>
                  && data[p].register == students[p]
                  && students[p] in db.students
                  && data[p].student == db.students[students[p]]
                  && data[p].student.studentClass == classNum
      invariant forall p :: 0 <= p < i ==> |data[p].marks| == |subjects|
      invariant forall p, j :: 0 <= p < i && 0 <= j < |subjects| ==>
                  data[p].marks[j] == CellFor(ResDict(db.results, resultOrder, students[p]), subjects[j].name)
      invariant forall p :: 0 <= p < i ==> data[p].total == TotalMarks(db.results, resultOrder, students[p])
    {
      var register := students[i];
      assert register in ClassRegisters(db.Snapshot(), classNum);
      var student := db.students[register];
      var resDict := ResDict(db.results, resultOrder, register);
      var marksList := MarksRow(resDict, subjects);
      data := data + [ClassRow(register, student, marksList, TotalMarks(db.results, resultOrder, register))];
      i := i + 1;
    }
  }

  /** What `student_result_view` shows for a register number that exists. */
  datatype StudentReport = StudentReport(student: Student, results: seq<ResultKey>, total: real)

  /**
   * `student.results.all()`: the student's Results in query order, each as
   * often as the query lists it.
   */
  function OwnResults(order: seq<ResultKey>, register: string): (own: seq<ResultKey>)
    ensures forall k :: k in own <==> k in order && k.register == register
    ensures forall k :: multiset(own)[k] == if k.register == register then multiset(order)[k] else 0
  {
    if order == [] then []
    else
      var k := order[|order| - 1];
      var earlier := OwnResults(order[..|order| - 1], register);
      assert order == order[..|order| - 1] + [k];
      assert forall x :: x in order <==> x in order[..|order| - 1] || x == k;
      if k.register == register then earlier + [k] else earlier
  }

  /** `sum(r.marks for r in results)`. */
  function SumMarks(results: map<ResultKey, real>, keys: seq<ResultKey>): real
    requires Stored(results, keys)
  {
    if keys == [] then 0.0
    else
      var prefix := keys[..|keys| - 1];
      assert forall k :: k in prefix ==> k in keys;
      SumMarks(results, prefix) + results[keys[|keys| - 1]]
  }

  /** The total on a student's page is the total of the same student in the class table. */
  lemma {:induction false} OwnSumIsTotal(results: map<ResultKey, real>, order: seq<ResultKey>, register: string)
    requires Stored(results, order)
    ensures Stored(results, OwnResults(order, register))
    ensures SumMarks(results, OwnResults(order, register)) == TotalMarks(results, order, register)
    decreases |order|
  {
    if order != [] {
      var prefix := order[..|order| - 1];
      var k := order[|order| - 1];
      assert forall x :: x in prefix ==> x in order;
      OwnSumIsTotal(results, prefix, register);
      var earlier := OwnResults(prefix, register);
      assert TotalMarks(results, order, register) == TotalMarks(results, prefix, register) + Share(results, k, register);
      if k.register == register {
        assert OwnResults(order, register) == earlier + [k];
        assert (earlier + [k])[..|earlier|] == earlier;
        assert SumMarks(results, earlier + [k]) == SumMarks(results, earlier) + results[k];
      } else {
        assert OwnResults(order, register) == earlier;
      }
    }
  }

  /**
   * `student_result_view`: None when no Student has the register number;
   * otherwise the student, exactly its Results, and their total.
   */
  function StudentResult(t: Tables, order: seq<ResultKey>, register: string): (r: Option<StudentReport>)
    requires Enumerates(order, t.results.Keys)
    ensures r.None? <==> register !in t.students
    ensures r.Some? ==> r.value.student == t.students[register]
    ensures r.Some? ==> forall k :: k in r.value.results <==> k in t.results && k.register == register
    ensures r.Some? ==> forall k :: multiset(r.value.results)[k] == if k in t.results && k.register == register then 1 else 0
    ensures r.Some? ==> r.value.total == TotalMarks(t.results, order, register)
  {
    if register !in t.students then None
    else
      var own := OwnResults(order, register);
      OwnSumIsTotal(t.results, order, register);
      assert forall k :: k in t.results ==> k in multiset(order);
      Some(StudentReport(t.students[register], own, SumMarks(t.results, own)))
  }

  /** A rank-list entry: a student and its total. */
  datatype RankEntry = RankEntry(register: string, total: real)

  predicate SortedByTotal(ranked: seq<RankEntry>) {
    forall i, j :: 0 <= i < j < |ranked| ==> ranked[i].total >= ranked[j].total
  }

  function Registers(ranked: seq<RankEntry>): seq<string> {
    seq(|ranked|, i requires 0 <= i < |ranked| => ranked[i].register)
  }

  /**
   * `rank_list_view`: every student of the class once, with its total, by
   * decreasing total (the database does the ordering).
   */
  predicate IsRankList(t: Tables, order: seq<ResultKey>, classNum: int, ranked: seq<RankEntry>) {
    && Enumerates(order, t.results.Keys)
    && Enumerates(Registers(ranked), ClassRegisters(t, classNum))
    && (forall i :: 0 <= i < |ranked| ==> ranked[i].total == TotalMarks(t.results, order, ranked[i].register))
    && SortedByTotal(ranked)
  }

  /** `toppers_view`: the first three entries of the ranking, or all of them when there are fewer. */
  function Toppers(ranked: seq<RankEntry>): (top: seq<RankEntry>)
    ensures |top| == if |ranked| < 3 then |ranked| else 3
    ensures forall i :: 0 <= i < |top| ==> top[i] == ranked[i]
    ensures SortedByTotal(ranked) ==> forall i, j :: 0 <= i < |top| <= j < |ranked| ==> top[i].total >= ranked[j].total
  {
    ranked[..if |ranked| < 3 then |ranked| else 3]
  }

  /** Every student of the class is a topper or totals no more than each topper. */
  lemma ToppersBeatTheClass(t: Tables, order: seq<ResultKey>, classNum: int, ranked: seq<RankEntry>, register: string)
    requires IsRankList(t, order, classNum, ranked)
    requires register in ClassRegisters(t, classNum)
    ensures forall i :: 0 <= i < |Toppers(ranked)| ==> Toppers(ranked)[i].register in ClassRegisters(t, classNum)
    ensures || (exists i :: 0 <= i < |Toppers(ranked)| && Toppers(ranked)[i].register == register)
            || (forall i :: 0 <= i < |Toppers(ranked)| ==> Toppers(ranked)[i].total >= TotalMarks(t.results, order, register))
  {
    var top := Toppers(ranked);
    assert forall i :: 0 <= i < |top| ==> top[i].register == Registers(ranked)[i];
    assert register in multiset(Registers(ranked));
    var p :| 0 <= p < |ranked| && Registers(ranked)[p] == register;
    if p >= |top| {
      assert forall i :: 0 <= i < |top| ==> top[i].total >= ranked[p].total;
    }
  }
}
