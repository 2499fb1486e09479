# College attendance store, modelled in Dafny

The application keeps two SQLite tables: `students` (id, name, roll number)
and `attendance` (student id, date, year, status). `attendance` has a
`UNIQUE(student_id, date)` key. A teacher adds students and marks a day's
attendance for a batch of students. The teacher can then view one date, view
per-student counts for a year, or export a year as a matrix with one row per
student and one column per date.

This project models those tables and the four handlers that act on them:

- `text.dfy` (`Text`): Python's `str.strip()`, which trims the submitted fields.
  Also the code-point lexicographic order that SQLite's BINARY collation uses
  in `ORDER BY`.
- `tables.dfy` (`Tables`): the row types and the attendance table as a map
  keyed by (student id, date). It also defines the meaning of
  `INSERT … ON CONFLICT(student_id, date) DO UPDATE SET status=excluded.status`,
  for one mark and for a batch.
- `ordering.dfy` (`Ordering`): `ORDER BY roll_no, name` over students, and
  `SELECT DISTINCT date … ORDER BY date`.
- `store.dfy` (`AttendanceStore`): a `Store` class. Its fields are the
  `students` sequence, the `attendance` map and the AUTOINCREMENT counter.
  Its methods are `AddStudent` (`add_student`) and `MarkAttendance`
  (`mark_attendance`, a loop of in-place upserts).
- `reports.dfy` (`Reports`): the two `view_attendance` queries as functions of
  the tables, and how the handler chooses between them.
- `export.dfy` (`Export`): `export_year`. It builds the header from the three titles
  and the dates, and the rows with the handler's nested loops.

The code behaves as follows in places a reader might not expect, and the
model does the same:

- **No foreign keys.** No `PRAGMA foreign_keys` is issued, so foreign keys are
  off. An attendance row may name an id missing from `students`. Such rows
  appear in neither view, but their dates still become export columns.
- **Year sums cover listed students only.** The year view's totals count only
  records of listed students. So the sum of `presents` equals the number of
  "present" records of that year whose student is listed, not of all records.
- **A re-mark keeps the old year.** Only `status` is rewritten, so the stored
  year stays the one first given.
- **Export cells ignore the year.** The per-cell lookup does not filter on the
  year. A student's record filed under another year still fills the column
  of its date.
- **`add_student` returns no id.** The handler only redirects. The model
  returns the inserted id (or `NameRequired`) so that the contract can name
  the id.

## Model

| member | source | states |
|---|---|---|
| `Text.Strip` | app.py:83-84 | the result is a slice of the input: whitespace is cut from both ends only, and the result neither starts nor ends with whitespace |
| `Text.StripEmptyIffAllSpace` | app.py:83-85 | a field is empty after stripping exactly when it is all whitespace, the case `add_student` rejects |
| `Text.StripIdempotent` | app.py:83-84 | stripping a stripped field changes nothing |
| `Text.LexLeAntisymmetric` | app.py:75 | the text order used by `ORDER BY` is antisymmetric |
| `Text.LexLeTransitive` | app.py:75 | the text order is transitive |
| `Text.LexLeTotal` | app.py:75 | any two texts are comparable |
| `Text.EmptyIsLeast` | app.py:84 | an empty roll number sorts before every other roll number |
| `Ordering.EmptyRollsFirst` | app.py:124 | in the sorted roster, every student whose stripped roll number is empty comes before every student with a roll number |
| `Ordering.StudentLeTransitive` | app.py:124 | the (roll_no, name) order on students is transitive |
| `Ordering.StudentLeTotal` | app.py:124 | any two students are comparable under (roll_no, name) |
| `Ordering.SortStudents` | app.py:147 | the roster comes back sorted by (roll_no, name) and is a permutation of the table |
| `Ordering.SortKeepsDistinctIds` | app.py:135 | the sorted roster keeps ids distinct and has the same ids, so `GROUP BY s.id` yields one group per student |
| `Ordering.SortedSet` | app.py:149 | `DISTINCT … ORDER BY` yields each member exactly once, in strictly ascending order |
| `Tables.Upsert` | app.py:104-108 | a new key gets the given year and status; an existing key keeps its year and gets the new status; all other records are unchanged |
| `Tables.MarkAll` | app.py:103-108 | the batch upsert removes no key, adds keys only on the marked date, and leaves every record of another date as it was (the exact keys and records are `Tables.MarkAllKeys`, `Tables.MarkAllFrame` and `Tables.MarkAllRecord`) |
| `Tables.LastStatus` | app.py:103 | the status left for an id is the one from that id's last entry in the batch |
| `Tables.MarkAllKeys` | app.py:103-108 | a batch adds exactly the keys (sid, date) of its ids and removes none |
| `Tables.MarkAllFrame` | app.py:103-108 | records on other dates, or of ids outside the batch, are unchanged |
| `Tables.MarkAllRecord` | app.py:103-108 | each batch id ends with one record on the date, holding its last status and the year first stored with it |
| `Tables.LaterMarkOverwrites` | app.py:35 | marking a student twice on one date leaves one record: the later status with the first mark's year |
| `Tables.MarkAllIdempotent` | app.py:104-108 | submitting the same batch again leaves the table unchanged |
| `AttendanceStore.AppendKeepsNumbering` | app.py:25 | appending a student under the next AUTOINCREMENT id keeps ids increasing and below the counter, and that id was not yet taken |
| `AttendanceStore.Store.constructor` | app.py:24-37 | a new store has both tables empty, and the first id it hands out is 1 |
| `AttendanceStore.Store.AddStudent` | app.py:82-91 | a name that is empty after stripping (by `Text.StripEmptyIffAllSpace`, an all-whitespace name) writes nothing and reports `NameRequired`; otherwise it appends exactly one student with a fresh id, the stripped name and the stripped roll; attendance is untouched |
| `AttendanceStore.Store.MarkAttendance` | app.py:96-110 | the table becomes the batch upsert of the old one: only (sid, date) keys of the batch change, each with its last status and the year it first had; the roster is unchanged |
| `Reports.DateRowsSound` | app.py:120-125 | every joined row pairs a listed student with its record on exactly the queried date |
| `Reports.DateRowsComplete` | app.py:120-125 | every listed student with a record on the date gets its row |
| `Reports.DateRowsDistinct` | app.py:120-125 | over a roster with distinct ids, no two joined rows share a student id |
| `Reports.DateRowsOrdered` | app.py:124 | joining over a sorted roster keeps the (roll_no, name) order |
| `Reports.ViewByDate` | app.py:119-126 | the rows are exactly the records of that date whose student exists, each joined with that student's name and roll, in (roll_no, name) order; when student ids are distinct, as the store keeps them, each student appears at most once |
| `Reports.YearRowFor` | app.py:130-134 | a group carries its student's id, name and roll, with presents at most total_marks |
| `Reports.YearRowCounts` | app.py:131-132 | total_marks is the number of the student's records of that year; presents counts those whose status is exactly "present" |
| `Reports.YearRows` | app.py:133-135 | one group per student, in the order the students are visited |
| `Reports.ViewByYear` | app.py:128-137 | one row per student, including students with no record that year; every student's group appears; 0 ≤ presents ≤ total_marks; (roll_no, name) order |
| `Reports.YearRowsSums` | app.py:131-135 | over a roster with distinct ids, the summed totals and presents count that roster's records of the year |
| `Reports.YearViewSums` | app.py:129-136 | summed over the year view, total_marks counts the year's records of listed students, and presents counts those reading "present" |
| `Reports.RemarkExample` | app.py:103-108 | marking 1:present and 2:absent, then 1:absent on the same date, leaves one absent record for each |
| `Reports.RemarkExampleYearView` | app.py:129-136 | for that table the year view reads Amit 0 of 1 and Sara 0 of 1 |
| `Reports.ViewAttendance` | app.py:115-140 | the date view is chosen exactly when the date is present and non-empty, whatever the year says; the year view exactly when the date is absent or empty and a year is given; no result exactly when neither is given |
| `Export.YearDates` | app.py:149-150 | the columns are the dates of the year's records, each once, strictly ascending, including dates whose only records have no listed student |
| `Export.ExportYear` | app.py:144-161 | the header is "Student ID", "Name", "Roll No" plus the dates; there is one row per student in (roll_no, name) order; each row is as long as the header, starts with the student's id, name and roll, and holds the looked-up status or "" per date |
| `Export.Lookup` | app.py:158-160 | the per-cell `SELECT status … WHERE student_id=? AND date=?`, or "" when no row comes back; `Export.CellMatchesDateView` and `Export.CellIgnoresYear` state what it returns |
| `Export.CellMatchesDateView` | app.py:157-160 | a cell holds the status the date view shows for that student on that date, and "" when that view has no row for the student |
| `Export.HeaderWidth` | app.py:153 | the header has 3 + (number of distinct dates of the year) columns |
| `Export.CellIgnoresYear` | app.py:158-160 | on a concrete table, a student's record filed under another year still fills the column of its date |
| `Export.DanglingRecordAddsEmptyColumn` | app.py:149-160 | on a concrete table, a record of an unlisted id adds a date column that is "" for the listed students |

## Left out

- Web layer: routing, the `login_required` session check, the password
  comparison, `flash`, templates, `redirect`, `jsonify` and `send_file`.
  These are request handling with no table logic.
- Database plumbing: connections, cursors, commits. `init_db` re-run on
  existing tables is not modelled: the constructor models a fresh database
  file only.
- CSV rendering: quoting and escaping by `csv.writer`, `str()` of the id,
  the `StringIO`/`BytesIO` copy and the UTF-8 encoding. The export stops at
  the matrix of cells.
- Request parsing: `request.json`, `request.args`, and `int()` on the year
  and the student-id keys. The model takes integers and strings as given. A
  batch is the sequence of (id, status) pairs in dict order after `int()`.
  Two JSON keys parsing to the same id therefore appear twice, and the later
  entry wins.
- Malformed requests. A missing `date` or a `null` status violates a
  `NOT NULL` column (app.py:32-34), and a list or object value is a type
  the database driver cannot bind. Either makes a statement fail in the
  middle of the batch, and the request ends without a commit. Numbers and
  booleans do not fail: the `TEXT` columns store them as text.
  An id or a year outside SQLite's 64-bit INTEGER range cannot be bound
  either (app.py:108). `MarkAttendance` takes the date and the statuses as
  that stored text, and its ids and year as unbounded integers, so it has
  no failure path.
- 64-bit INTEGER limits: the model's ids and years are unbounded `int`s.
  A year outside the 64-bit range makes the year view (app.py:136) and the
  export (app.py:149) fail when the driver binds it. `ViewByYear` and
  `ExportYear` answer for any year.
- AttendanceStore.Store.AddStudent: AUTOINCREMENT fails with "database or
  disk is full" once id 2^63−1 has been used (app.py:25). The model's
  `nextId` keeps growing, so this failure is not modelled.
- Transactions and concurrency: atomic commit and last-write-wins between
  concurrent requests belong to SQLite.
- The index page's `date.today()`, which reads the clock. Its roster listing
  is `Ordering.SortStudents`.
- The `attendance.id` surrogate column, included in the date view's `a.*`.
  It is never read by the handlers except to count matched rows in
  `COUNT(a.id)`, which the year view models as a count of records.
- NULL roll numbers: `add_student` always stores a string, and no other
  writer is part of this model.
- Ordering.SortStudents: SQLite leaves the order of students that tie on
  (roll_no, name) unspecified. The model keeps such students in insertion
  order, and its contract promises only sortedness and permutation.
