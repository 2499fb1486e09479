/** `export_year`: the attendance matrix of one year, one row per student and
    one column per distinct date recorded under that year. */
module Export {
  import opened Text
  import opened Tables
  import opened Ordering
  import Reports

  /** A CSV field before `csv.writer` renders it: the student id is an
      integer, every other field is text. */
  datatype Cell = IntCell(n: int) | TextCell(text: string)

  /** `SELECT DISTINCT date FROM attendance WHERE year=? ORDER BY date`: the
      dates of the year's records, each once, ascending. The records need not
      belong to a listed student. */
  function YearDates(att: Attendance, year: int): (dates: seq<string>)
    ensures StrictlyAscending(dates)
    ensures forall d :: d in dates <==> exists k :: k in att && att[k].year == year && k.1 == d
  {
    var ds := set k | k in att && att[k].year == year :: k.1;
    SortedSet(ds)
  }

  /** `SELECT status FROM attendance WHERE student_id=? AND date=?`, or "" when
      no row comes back. The query does not filter on the year. */
  function Lookup(att: Attendance, sid: int, date: string): string {
    if (sid, date) in att then att[(sid, date)].status else ""
  }

  const HeaderPrefix: seq<Cell> := [TextCell("Student ID"), TextCell("Name"), TextCell("Roll No")]

  /** The header row: the three fixed titles, then one title per date. */
  predicate IsHeader(header: seq<Cell>, dates: seq<string>) {
    && |header| == 3 + |dates|
    && header[..3] == HeaderPrefix
    && forall j :: 3 <= j < |header| ==> header[j] == TextCell(dates[j - 3])
  }

  /** The data row of student `s`: its id, name and roll number, then one
      looked-up status per date, so as long as the header. */
  predicate IsStudentRow(row: seq<Cell>, s: Student, att: Attendance, dates: seq<string>) {
    && |row| == 3 + |dates|
    && row[..3] == [IntCell(s.id), TextCell(s.name), TextCell(s.roll)]
    && forall j :: 3 <= j < |row| ==> row[j] == TextCell(Lookup(att, s.id, dates[j - 3]))
  }

  /** Builds the matrix as the handler does: the header, then for each
      student in (roll_no, name) order a row extended cell by cell. */
  method ExportYear(students: seq<Student>, att: Attendance, year: int) returns (header: seq<Cell>, rows: seq<seq<Cell>>)
    ensures IsHeader(header, YearDates(att, year))
    ensures |rows| == |students|
    ensures forall i :: 0 <= i < |rows| ==> IsStudentRow(rows[i], SortStudents(students)[i], att, YearDates(att, year))
  {
    var sorted := SortStudents(students);
    var dates := YearDates(att, year);
    header := HeaderPrefix;
    var j := 0;
    while j < |dates|
      invariant 0 <= j <= |dates|
      invariant |header| == 3 + j && header[..3] == HeaderPrefix
      invariant forall k :: 3 <= k < |header| ==> header[k] == TextCell(dates[k - 3])
    {
      header := header + [TextCell(dates[j])];
      j := j + 1;
    }
    rows := [];
    var i := 0;
    while i < |sorted|
      invariant 0 <= i <= |sorted|
      invariant |rows| == i
      invariant forall n :: 0 <= n < i ==> IsStudentRow(rows[n], sorted[n], att, dates)
    {
      var s := sorted[i];
      var row := [IntCell(s.id), TextCell(s.name), TextCell(s.roll)];
      j := 0;
      while j < |dates|
        invariant 0 <= j <= |dates|
        invariant |row| == 3 + j && row[..3] == [IntCell(s.id), TextCell(s.name), TextCell(s.roll)]
        invariant forall k :: 3 <= k < |row| ==> row[k] == TextCell(Lookup(att, s.id, dates[k - 3]))
      {
        var d := dates[j];
        var cell := if (s.id, d) in att then att[(s.id, d)].status else "";
        row := row + [TextCell(cell)];
        j := j + 1;
      }
      rows := rows + [row];
      i := i + 1;
    }
  }

  /** A cell agrees with the date view of its column: it holds the status of
      the student's row there, and "" when the student has no row there. */
  lemma CellMatchesDateView(students: seq<Student>, att: Attendance, s: Student, date: string)
    requires s in students
    ensures (s.id, date) in att ==>
              Reports.JoinRow(s, date, att[(s.id, date)]) in Reports.ViewByDate(students, att, date)
              && Lookup(att, s.id, date) == att[(s.id, date)].status
    ensures (forall r :: r in Reports.ViewByDate(students, att, date) ==> r.studentId != s.id) ==>
              Lookup(att, s.id, date) == ""
  {
    if (s.id, date) in att {
      assert Reports.JoinRow(s, date, att[(s.id, date)]) in Reports.ViewByDate(students, att, date);
    }
  }

  /** The column count: three fixed columns plus one per distinct date that
      has a record tagged with the year. */
  lemma HeaderWidth(header: seq<Cell>, att: Attendance, year: int)
    requires IsHeader(header, YearDates(att, year))
    ensures |header| == 3 + |set k | k in att && att[k].year == year :: k.1|
  {
    var ds := set k | k in att && att[k].year == year :: k.1;
    assert YearDates(att, year) == SortedSet(ds);
  }

  /** A cell looks up (student, date) without the year: a student's record
      filed under another year still fills the column of its date, when some
      other record gives that date the exported year. */
  lemma CellIgnoresYear()
    ensures var att := map[(1, "2024-01-10") := Mark(2023, "present"), (2, "2024-01-10") := Mark(2024, "absent")];
            && YearDates(att, 2024) == ["2024-01-10"]
            && Lookup(att, 1, "2024-01-10") == "present"
  {
    var att := map[(1, "2024-01-10") := Mark(2023, "present"), (2, "2024-01-10") := Mark(2024, "absent")];
    var dates := YearDates(att, 2024);
    assert (2, "2024-01-10") in att && att[(2, "2024-01-10")].year == 2024;
    assert "2024-01-10" in dates;
    forall d | d in dates ensures d == "2024-01-10" {
      var k :| k in att && att[k].year == 2024 && k.1 == d;
    }
  }

  /** Without a foreign key, a record of an id missing from `students` still
      adds its date as a column, empty in every listed student's row. */
  lemma DanglingRecordAddsEmptyColumn()
    ensures var att := map[(99, "2024-01-11") := Mark(2024, "present")];
            && YearDates(att, 2024) == ["2024-01-11"]
            && Lookup(att, 1, "2024-01-11") == ""
  {
    var att := map[(99, "2024-01-11") := Mark(2024, "present")];
    var dates := YearDates(att, 2024);
    assert (99, "2024-01-11") in att;
    assert "2024-01-11" in dates;
    forall d | d in dates ensures d == "2024-01-11" {
      var k :| k in att && att[k].year == 2024 && k.1 == d;
    }
  }
}
