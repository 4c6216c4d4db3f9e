# School results: bulk upload and result views

This project models the results application of a small school site in Dafny, and proves properties of that model. The application has three tables:

- **Student**: keyed by register number.
- **Subject**: keyed by the pair (name, class).
- **Result**: one mark per (student, subject).

The core is the staff-only **bulk upload**. A spreadsheet of one class is merged into the three tables:

1. The file name must end in `.xlsx` or `.xls`.
2. The header cells are stripped of whitespace and must include "Register Number" and "Name".
3. Every other column is a subject column, except "Father's Name" and any column whose label contains "Unnamed".
4. A Subject (name, class) is fetched or created for each subject column.
5. Each data row is processed in file order:
   - A row whose register number is blank or "nan" is skipped.
   - Otherwise its Student is created with the row's name, class and father's name. A student that already exists gets only a non-empty father's name.
   - Every subject cell that parses as a number creates or overwrites the Result for that student and subject.

Around the upload sit the read-only views:

- a student's page with the total of their marks;
- the class result table, with one entry per subject of the class, or "-";
- the rank list by decreasing total, whose first three entries are the toppers.

## How the model is built

- **Tables as maps** (`models.dfy`, module `Models`). Each table is a map or set keyed by its natural key, so the uniqueness constraints hold by construction:
  - `unique=True` on the register number;
  - `unique_together` on (name, student_class) for Subject;
  - `unique_together` on (student, subject) for Result.

  Result's foreign keys become the predicate `Consistent`. The cascade deletes are set operations, both on `Tables` values and in place on the class `Db`.
- **Text and header operations** (`text.dfy`, `sheet.dfy`):
  - Python's `str.strip` over the full `isspace` set;
  - `endswith`, and `in` on strings;
  - the column classification;
  - reading a stripped cell of a row.
- **The upload as functions** (`reconciler.dfy`, module `Reconciler`). These are pure functions over `Tables`:
  - one function for each step of the view (`UpsertStudent`, `CreateSubjects`, `ApplyMarks`, `ApplyRow`, `ApplyRows`);
  - the whole upload as `Upload`, which returns the outcome and the new tables.
- **Whole-file properties** (`upload_props.dfy`, module `UploadProps`):
  - what a file leaves under each register number and each result key;
  - idempotence;
  - preservation of the foreign keys.
- **The upload as imperative code** (`upload_view.dfy`, module `UploadView`). `BulkUpload` is the view's imperative code on a `Db`:
  - a loop that fills `subject_objs`;
  - a row loop, and inside it the student upsert and a column loop of result upserts.

  It is proved to leave the database in the state `Upload` computes.
- **The read views** (`reports.dfy`, module `Reports`):
  - the per-student total and its independence of the order of the rows;
  - `res_dict` with last-wins;
  - the class table as a method with its two nested loops;
  - the student page;
  - the rank-list relation and the toppers.

Python's `float()` is the function parameter `parse: string -> Option<real>`; `None` stands for a `ValueError`. The database's row order is also a parameter. Each query takes a sequence that `Enumerates` the table, meaning it lists each row exactly once.

## Where the code and its description differ, and modelling choices

The model follows the code where it differs from the application's description:

- **No exam and no Class column.** The code is single-tenant, with no exam or institution, and it reads no Class column from the sheet. Every subject and every Result of an upload is attached to the class entered in the form.
- **A student of another class.** A row about a student who already exists in another class keeps that student's class. Its marks are still stored under the form's class's subjects.
- **`res_dict` in the class table is keyed by subject name alone.** A student's Result for a same-named subject of another class can therefore fill the column. When two Results share a name, the later one in query order wins (`Reports.ResDictIsLast`).
- **Looking up a column by label.** A row's cell is read at the first column whose stripped label matches. If two headers collide after stripping, pandas would return several values; that case is left out below.

## Model

| member | source | states |
|---|---|---|
| Models.RemoveStudent | results_app/models.py:23 | deleting a student removes exactly its results, keeps every other row, and keeps the foreign keys consistent |
| Models.RemoveSubject | results_app/models.py:24 | deleting a subject removes exactly its results, keeps every other row, and keeps the foreign keys consistent |
| Models.Db.DeleteStudent | results_app/models.py:23 | the in-place delete reaches `RemoveStudent` of the old state and keeps `Valid` |
| Models.Db.DeleteSubject | results_app/models.py:24 | the in-place delete reaches `RemoveSubject` of the old state and keeps `Valid` |
| Models.Db.constructor | results_app/models.py:3-28 | an empty database is consistent |
| Text.TrimLeft | results_app/views.py:91 | the result is no longer than the input and starts with a non-space |
| Text.TrimLeftRemovesSpace | results_app/views.py:91 | left trimming drops only a prefix made of whitespace |
| Text.TrimRight | results_app/views.py:91 | the result is no longer than the input, ends with a non-space and keeps the first character |
| Text.TrimRightRemovesSpace | results_app/views.py:91 | right trimming drops only a suffix made of whitespace |
| Text.Strip | results_app/views.py:91 | the result neither starts nor ends with whitespace |
| Text.StripIsSlice | results_app/views.py:91 | the stripped label is a slice of the input with only whitespace outside it |
| Text.StripKeepsText | results_app/views.py:91 | every non-space character of the input survives stripping |
| Text.StrippedIsFixed | results_app/views.py:111 | a label with no whitespace at either end is left unchanged by strip |
| Text.StripIdempotent | results_app/views.py:111 | stripping an already stripped label (`sub_name.strip()`) changes nothing |
| Sheet.StripAllStripped | results_app/views.py:91-93 | the stripped header has one label per column, each a fixed point of strip |
| Sheet.SubjectColumns | results_app/views.py:99-106 | the subject columns keep header order, and each label occurs in them exactly as often as in the header when it is not "Register Number", not "Name", not "Father's Name" (when that column exists) and does not contain "Unnamed", and otherwise never |
| Sheet.MakeLayoutWellFormed | results_app/views.py:93-106 | the required columns are in the header, the father's-name column is used exactly when the stripped header has it, and every subject column is a stripped header label |
| Sheet.IndexOf | results_app/views.py:115 | a row's cell is read at a column whose label is the one asked for |
| Sheet.IndexOfIsFirst | results_app/views.py:115 | no earlier column has that label |
| Reconciler.UpsertStudent | results_app/views.py:118-133 | the row's student exists afterwards; no other student changes; an existing student keeps name and class; a new one gets the row's name and the form's class; the father's name is replaced only by a non-empty value and never cleared |
| Reconciler.CreateSubjects | results_app/views.py:109-112 | no existing Subject is removed |
| Reconciler.CreateSubjectsContents | results_app/views.py:109-112 | afterwards a Subject exists exactly for the old subjects plus (stripped column label, class) for every subject column |
| Reconciler.CreateSubjectsHasColumns | results_app/views.py:110-111 | every already stripped subject column has the Subject (label, class) afterwards |
| Reconciler.MarksByColumn | results_app/views.py:136-147 | the column loop leaves under each key the mark of the last column writing it, and leaves every other key alone |
| Reconciler.ColumnMarkIsCellMark | results_app/views.py:136-143 | the last column writing a key is the subject column whose label names that key's subject |
| Reconciler.MarksOfRow | results_app/views.py:136-147 | a cell whose stripped value is neither empty nor "nan" and parses stores the parsed mark under (register number, subject of the column); an empty, "nan" or unparseable cell leaves that Result as it was; other columns are processed regardless |
| Reconciler.ApplyRow | results_app/views.py:114-147 | a row with a blank or "nan" register number changes nothing; otherwise the student is upserted, the subjects are untouched, and exactly the row's parseable cells overwrite their Results |
| Reconciler.ApplyRows | results_app/views.py:114-147 | the row loop creates no subjects |
| Reconciler.Upload | results_app/views.py:82-112 | a non-Excel file name and a header missing "Register Number" or "Name" are each rejected, exactly in those cases and before any write; after a successful upload a Subject exists for every subject column, even with no data rows |
| UploadProps.LastValuesNeedARow | results_app/views.py:114-147 | only a processed row about a student sets a father's name or a mark for it, and marks go only to subjects of the form's class named by a subject column |
| UploadProps.StudentAfterRows | results_app/views.py:114-133 | after the file, a student no row names is untouched; any other student is the stored one, or else the one its first row creates, with the last non-empty father's name any of its rows gives |
| UploadProps.ResultAfterRows | results_app/views.py:114-147 | after the file, each Result holds the mark of the last row in file order that stores one under its key, and is untouched when no row does |
| UploadProps.RowsIdempotent | results_app/views.py:114-147 | running the row loop again over its own output changes nothing |
| UploadProps.CreateSubjectsTwice | results_app/views.py:109-112 | creating the subjects again changes nothing |
| UploadProps.UploadIdempotent | results_app/views.py:82-147 | uploading the same file twice leaves the same tables, and the same outcome, as uploading it once |
| UploadProps.RowKeepsConsistent | results_app/views.py:114-147 | one row keeps every Result pointing at an existing Student and Subject, once the subject columns' Subjects exist |
| UploadProps.RowsKeepConsistent | results_app/views.py:114-147 | the whole row loop keeps the foreign keys under the same condition |
| UploadProps.UploadKeepsConsistent | results_app/views.py:82-147 | after an upload every Result still refers to an existing Student and Subject |
| UploadView.CreateSubjectRows | results_app/views.py:109-112 | the loop creates the subjects `CreateSubjects` gives and maps each subject column to its Subject |
| UploadView.StoreStudent | results_app/views.py:121-133 | `get_or_create` plus the father's-name save leave the students `UpsertStudent` gives |
| UploadView.StoreMarks | results_app/views.py:136-147 | the column loop leaves the results `ApplyMarks` gives |
| UploadView.StoreRow | results_app/views.py:114-147 | one iteration of the row loop reaches `ApplyRow` of the old state |
| UploadView.StoreRows | results_app/views.py:114-147 | the row loop reaches `ApplyRows` of the old state |
| UploadView.BulkUpload | results_app/views.py:75-157 | the in-place view returns the outcome and leaves the database `Upload` gives, and keeps the foreign keys consistent |
| Reports.TotalMarks | results_app/views.py:35-47 | a student with no results totals 0 |
| Reports.TotalAppend | results_app/views.py:35 | the total over two runs of Results, one after the other, is the sum of their totals |
| Reports.TotalWithout | results_app/views.py:35 | taking one Result out of the rows summed takes exactly its share out of a total |
| Reports.TotalOrderIndependent | results_app/views.py:35 | a total is the same whatever order the database returns the Results in |
| Reports.ResDictKeys | results_app/views.py:41 | a subject name is in `res_dict` exactly when the student has a Result for a subject of that name |
| Reports.ResDictIsLast | results_app/views.py:41 | `res_dict` holds the mark of the student's last Result for that name in query order |
| Reports.ResDictOfOnlyResult | results_app/views.py:40-41 | when a student has one Result for a subject name, `res_dict` shows its mark |
| Reports.MarksRow | results_app/views.py:43-45 | one entry per subject in subject order, the `res_dict` mark or "-" |
| Reports.ClassResult | results_app/views.py:35-47 | one row per student of the class in query order, with that student, one entry per Subject of the class in query order (the mark for that subject's name or "-"), and the student's total |
| Reports.OwnResults | results_app/views.py:21 | `student.results.all()` holds exactly the Results of that student, each as often as the query lists it |
| Reports.OwnSumIsTotal | results_app/views.py:22-35 | the sum on the student page equals the total the class table and rank list use |
| Reports.StudentResult | results_app/views.py:17-25 | no report exactly when no Student has the register number; otherwise that student, each of its Results exactly once, and their total |
| Reports.Toppers | results_app/views.py:54 | the first three entries of the ranking, or all when fewer, and on a sorted ranking none beats a topper |
| Reports.ToppersBeatTheClass | results_app/views.py:52-59 | every topper is in the class, and every student of the class is a topper or totals no more than each topper |

## Left out

- Reading the spreadsheet is not modelled. This covers `pd.read_excel`, `astype(str)` and the DataFrame. The input is the header and the rows as strings, with a missing cell written "nan". The model does not show how pandas renders numbers as text, for example a register number read as `101.0`. It also does not show how pandas names blank header cells (`Unnamed: n`).
- Duplicate column labels after stripping are not modelled. pandas returns several values for such a label, which makes `.strip()` fail or a mark unparseable. The model reads the first matching column instead.
- Reconciler.Upload: requires every row to have one cell per header column, which a DataFrame guarantees.
- Python's `float()` is the parameter `parse`. Floating-point arithmetic is `real` arithmetic, so Sum and `sum` totals carry no rounding.
- The catch-all `except` and the failures it catches are not modelled, for example database errors or a `max_length` overflow. The writes made before such an exception are not rolled back, and the model does not show them. The model's `Db` never fails.
- The `max_length` limits do not appear in the model: 255 for names, 50 for register numbers, 100 for subject names.
- Reports.IsRankList: the database's ordering is stated as a relation that holds for the ranking the view receives. Which among equal totals comes first, and where NULL totals sort in `order_by('-total_marks')`, are not modelled. A student without results has total 0 here.
- The database's row order is a parameter everywhere. Ties in it decide the order of the rows and columns of the class table.
- `student_result_view` receives the cleaned form value as its register number. Form validation, widgets, `messages`, `render`, `redirect`, HTTP and `@login_required` are framework plumbing.
- `single_upload_view` is left out because it is a ModelForm save. `home_view` and `staff_dashboard_view` are left out because they are rendering and a distinct-class listing.
- results_app/urls.py and results_app/admin.py are routing and admin configuration. The `Institution` model that admin.py imports is not part of this model.
- The `__str__` formatting of the models is not modelled.
- Concurrent uploads are not modelled.
- Unicode handling beyond the `isspace` code points used by `strip` is not modelled.
