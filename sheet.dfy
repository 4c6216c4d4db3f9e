/**
 * How the upload view reads a spreadsheet that has already been turned into
 * strings: which columns are recognised, which are subjects, and what each
 * cell of a row means. A missing spreadsheet cell arrives as the string "nan".
 */
module Sheet {
  import opened Wrappers
  import opened Text

  const RegisterColumn := "Register Number"
  const NameColumn := "Name"
  const FathersColumn := "Father's Name"

  /** The file name has one of the two accepted extensions. */
  predicate IsExcelName(fileName: string) {
    EndsWith(fileName, ".xlsx") || EndsWith(fileName, ".xls")
  }

  /** The column headers with white space stripped from each, in order. */
  function StripAll(header: seq<string>): (cols: seq<string>)
  {
    seq(|header|, i requires 0 <= i < |header| => Strip(header[i]))
  }

  /** Every stripped header is its own strip: the headers are the keys later stripped again. */
  lemma StripAllStripped(header: seq<string>)
    ensures |StripAll(header)| == |header|
    ensures forall c :: c in StripAll(header) ==> Strip(c) == c
  {
    forall c | c in StripAll(header)
      ensures Strip(c) == c
    {
      var i :| 0 <= i < |header| && StripAll(header)[i] == c;
      StripIdempotent(header[i]);
    }
  }

  predicate HasRequiredColumns(cols: seq<string>) {
    RegisterColumn in cols && NameColumn in cols
  }

  /** The list comprehension's test: not a fixed column and no "Unnamed" in it. */
  predicate IsSubjectColumn(c: string, hasFathers: bool) {
    && c != RegisterColumn
    && c != NameColumn
    && !(hasFathers && c == FathersColumn)
    && !Contains(c, "Unnamed")
  }

  /** `a` is `b` with some elements left out, the others kept in order. */
  predicate IsSubsequence<T(==)>(a: seq<T>, b: seq<T>)
    decreases |b|
  {
    if a == [] then true
    else if b == [] then false
    else (a[0] == b[0] && IsSubsequence(a[1..], b[1..])) || IsSubsequence(a, b[1..])
  }

  /**
   * The subject columns: exactly the headers that pass the test, each as many
   * times as it occurs, in header order.
   */
  function SubjectColumns(cols: seq<string>, hasFathers: bool): (subjects: seq<string>)
    ensures IsSubsequence(subjects, cols)
    ensures forall c :: multiset(subjects)[c] == if IsSubjectColumn(c, hasFathers) then multiset(cols)[c] else 0
  {
    if cols == [] then []
    else
      var rest := SubjectColumns(cols[1..], hasFathers);
      assert cols == [cols[0]] + cols[1..];
      if IsSubjectColumn(cols[0], hasFathers) then
        assert ([cols[0]] + rest)[1..] == rest;
        [cols[0]] + rest
      else rest
  }

  /** What the view derives from the header once per file. */
  datatype Layout = Layout(cols: seq<string>, hasFathers: bool, subjects: seq<string>, classNum: int)

  function MakeLayout(header: seq<string>, classNum: int): Layout {
    var cols := StripAll(header);
    var hasFathers := FathersColumn in cols;
    Layout(cols, hasFathers, SubjectColumns(cols, hasFathers), classNum)
  }

  /** The facts about a layout that the row processing needs. */
  predicate WellFormed(l: Layout) {
    && RegisterColumn in l.cols
    && NameColumn in l.cols
    && (l.hasFathers ==> FathersColumn in l.cols)
    && forall s :: s in l.subjects ==> s in l.cols && IsStripped(s)
  }

  /** A header with both required columns gives a well-formed layout. */
  lemma MakeLayoutWellFormed(header: seq<string>, classNum: int)
    requires HasRequiredColumns(StripAll(header))
    ensures WellFormed(MakeLayout(header, classNum))
    ensures MakeLayout(header, classNum).hasFathers <==> FathersColumn in StripAll(header)
  {
    var l := MakeLayout(header, classNum);
    StripAllStripped(header);
    forall s | s in l.subjects
      ensures s in l.cols
    {
      assert multiset(l.subjects)[s] > 0;
    }
  }

  /** The position of the first column named `name`: where pandas finds `row[name]`. */
  function IndexOf(cols: seq<string>, name: string): (i: nat)
    requires name in cols
    ensures i < |cols| && cols[i] == name
  {
    if cols[0] == name then 0 else 1 + IndexOf(cols[1..], name)
  }

  /** No column before `IndexOf(cols, name)` has that name. */
  lemma {:induction false} IndexOfIsFirst(cols: seq<string>, name: string, j: nat)
    requires name in cols
    requires j < IndexOf(cols, name)
    ensures cols[j] != name
  {
    if j > 0 {
      IndexOfIsFirst(cols[1..], name, j - 1);
    }
  }

  predicate Fits(l: Layout, row: seq<string>) {
    |row| == |l.cols|
  }

  function Cell(l: Layout, row: seq<string>, column: string): string
    requires column in l.cols && Fits(l, row)
  {
    row[IndexOf(l.cols, column)]
  }

  /** The stripped register number of a row. */
  function RegisterOf(l: Layout, row: seq<string>): string
    requires WellFormed(l) && Fits(l, row)
  {
    Strip(Cell(l, row, RegisterColumn))
  }

  /** A register number that makes the row be skipped. */
  predicate IsBlankRegister(register: string) {
    register == "nan" || register == ""
  }

  /** The row's name: "" for a missing cell (the test is on the unstripped cell). */
  function NameOf(l: Layout, row: seq<string>): string
    requires WellFormed(l) && Fits(l, row)
  {
    var raw := Cell(l, row, NameColumn);
    if raw != "nan" then Strip(raw) else ""
  }

  /** The row's father's name: None without the column or for a missing cell. */
  function FathersOf(l: Layout, row: seq<string>): Option<string>
    requires WellFormed(l) && Fits(l, row)
  {
    if l.hasFathers && Cell(l, row, FathersColumn) != "nan" then Some(Strip(Cell(l, row, FathersColumn)))
    else None
  }

  /**
   * The mark a row gives for a subject column: None for an empty or missing
   * cell and for one `parse` (Python's `float`) rejects.
   */
  function MarkOf(l: Layout, row: seq<string>, subject: string, parse: string -> Option<real>): Option<real>
    requires subject in l.cols && Fits(l, row)
  {
    var value := Strip(Cell(l, row, subject));
    if value != "" && value != "nan" then parse(value) else None
  }
}
