/** `view_attendance`: the two read-only queries over the store, as functions
    of the two tables, and the choice between them. */
module Reports {
  import opened Text
  import opened Tables
  import opened Ordering

  datatype Option<T> = None | Some(value: T)

  // ---------------------------------------------------------------------
  // By date: attendance JOIN students ON s.id = a.student_id WHERE a.date=?

  /** A row of the date view: the `attendance` columns `a.*` (without the
      surrogate row id) followed by `s.name` and `s.roll_no`. */
  datatype DateRow = DateRow(studentId: int, date: string, year: int, status: string, name: string, roll: string)

  /** The joined row for student `s` and its record on `date`. */
  function JoinRow(s: Student, date: string, m: Mark): DateRow {
    DateRow(s.id, date, m.year, m.status, s.name, s.roll)
  }

  /** The inner join, visiting students in the order given. */
  function DateRows(ss: seq<Student>, att: Attendance, date: string): seq<DateRow> {
    if ss == [] then []
    else
      var s := ss[0];
      (if (s.id, date) in att then [JoinRow(s, date, att[(s.id, date)])] else [])
      + DateRows(ss[1..], att, date)
  }

  /** Every row joins a listed student with that student's record on exactly
      the queried date. */
  lemma {:induction false} DateRowsSound(ss: seq<Student>, att: Attendance, date: string, r: DateRow)
    requires r in DateRows(ss, att, date)
    ensures exists s :: s in ss && (s.id, date) in att && r == JoinRow(s, date, att[(s.id, date)])
  {
    var s := ss[0];
    if r !in DateRows(ss[1..], att, date) {
      assert r == JoinRow(s, date, att[(s.id, date)]);
    } else {
      DateRowsSound(ss[1..], att, date, r);
      var t :| t in ss[1..] && (t.id, date) in att && r == JoinRow(t, date, att[(t.id, date)]);
      assert t in ss;
    }
  }

  /** Every listed student with a record on the date has its joined row. */
  lemma {:induction false} DateRowsComplete(ss: seq<Student>, att: Attendance, date: string, s: Student)
    requires s in ss && (s.id, date) in att
    ensures JoinRow(s, date, att[(s.id, date)]) in DateRows(ss, att, date)
  {
    if ss[0] != s {
      assert s in ss[1..];
      DateRowsComplete(ss[1..], att, date, s);
    }
  }

  function RowStudent(r: DateRow): Student {
    Student(r.studentId, r.name, r.roll)
  }

  /** Rows in `ORDER BY s.roll_no, s.name` order. */
  predicate DateRowsSorted(rows: seq<DateRow>) {
    forall i, j :: 0 <= i < j < |rows| ==> StudentLe(RowStudent(rows[i]), RowStudent(rows[j]))
  }

  /** The join keeps the order of the students it visits. */
  lemma {:induction false} DateRowsOrdered(ss: seq<Student>, att: Attendance, date: string)
    requires Sorted(ss)
    ensures DateRowsSorted(DateRows(ss, att, date))
  {
    if ss != [] {
      var rest := DateRows(ss[1..], att, date);
      assert Sorted(ss[1..]) by {
        forall i, j | 0 <= i < j < |ss[1..]| ensures StudentLe(ss[1..][i], ss[1..][j]) {
          assert ss[1..][i] == ss[i + 1] && ss[1..][j] == ss[j + 1];
        }
      }
      DateRowsOrdered(ss[1..], att, date);
      if (ss[0].id, date) in att {
        var rows := DateRows(ss, att, date);
        var head := JoinRow(ss[0], date, att[(ss[0].id, date)]);
        assert rows == [head] + rest;
        forall j | 0 <= j < |rest| ensures StudentLe(ss[0], RowStudent(rest[j])) {
          assert rest[j] in rest;
          DateRowsSound(ss[1..], att, date, rest[j]);
          var t :| t in ss[1..] && (t.id, date) in att && rest[j] == JoinRow(t, date, att[(t.id, date)]);
          var k :| 0 <= k < |ss[1..]| && ss[1..][k] == t;
          assert ss[k + 1] == t;
        }
        forall i, j | 0 <= i < j < |rows| ensures StudentLe(RowStudent(rows[i]), RowStudent(rows[j])) {
          if i == 0 {
            assert RowStudent(rows[0]) == ss[0] && rows[j] == rest[j - 1];
          } else {
            assert rows[i] == rest[i - 1] && rows[j] == rest[j - 1];
          }
        }
      }
    }
  }

  /** No two rows of a join over a roster with distinct ids share a student id. */
  predicate DistinctRowIds(rows: seq<DateRow>) {
    forall i, j :: 0 <= i < j < |rows| ==> rows[i].studentId != rows[j].studentId
  }

  /** Over a roster with distinct ids the join yields at most one row per id. */
  lemma {:induction false} DateRowsDistinct(ss: seq<Student>, att: Attendance, date: string)
    requires DistinctIds(ss)
    ensures DistinctRowIds(DateRows(ss, att, date))
  {
    if ss != [] {
      IdsCons(ss);
      DateRowsDistinct(ss[1..], att, date);
      var rest := DateRows(ss[1..], att, date);
      if (ss[0].id, date) in att {
        var rows := DateRows(ss, att, date);
        assert rows == [JoinRow(ss[0], date, att[(ss[0].id, date)])] + rest;
        forall j | 0 <= j < |rest| ensures rest[j].studentId != ss[0].id {
          assert rest[j] in rest;
          DateRowsSound(ss[1..], att, date, rest[j]);
          var t :| t in ss[1..] && (t.id, date) in att && rest[j] == JoinRow(t, date, att[(t.id, date)]);
          var k :| 0 <= k < |ss[1..]| && ss[1..][k] == t;
          assert t.id in Ids(ss[1..]);
        }
        forall i, j | 0 <= i < j < |rows| ensures rows[i].studentId != rows[j].studentId {
          assert rows[j] == rest[j - 1];
          if i > 0 { assert rows[i] == rest[i - 1]; }
        }
      }
    }
  }

  /** The date view: exactly the records of that date whose student exists,
      each joined with its student, ordered by (roll_no, name). Records of
      other dates, and records of ids missing from `students`, do not appear. */
  function ViewByDate(students: seq<Student>, att: Attendance, date: string): (rows: seq<DateRow>)
    ensures forall r :: r in rows <==>
              exists s :: s in students && (s.id, date) in att && r == JoinRow(s, date, att[(s.id, date)])
    ensures DateRowsSorted(rows)
    ensures DistinctIds(students) ==> DistinctRowIds(rows)
  {
    var sorted := SortStudents(students);
    SortedSameMembers(students);
    DateRowsOrdered(sorted, att, date);
    var rows := DateRows(sorted, att, date);
    assert DistinctIds(students) ==> DistinctRowIds(rows) by {
      if DistinctIds(students) {
        SortKeepsDistinctIds(students);
        DateRowsDistinct(sorted, att, date);
      }
    }
    assert forall r :: r in rows ==>
             exists s :: s in students && (s.id, date) in att && r == JoinRow(s, date, att[(s.id, date)]) by {
      forall r | r in rows
        ensures exists s :: s in students && (s.id, date) in att && r == JoinRow(s, date, att[(s.id, date)])
      {
        DateRowsSound(sorted, att, date, r);
      }
    }
    assert forall s :: s in students && (s.id, date) in att ==> JoinRow(s, date, att[(s.id, date)]) in rows by {
      forall s | s in students && (s.id, date) in att ensures JoinRow(s, date, att[(s.id, date)]) in rows {
        DateRowsComplete(sorted, att, date, s);
      }
    }
    rows
  }

  // ---------------------------------------------------------------------
  // By year: students LEFT JOIN attendance ON a.student_id = s.id AND a.year=?
  //          GROUP BY s.id

  /** A row of the year view. */
  datatype YearRow = YearRow(studentId: int, name: string, roll: string, presents: nat, totalMarks: nat)

  /** The keys of the records of student `sid` tagged with `year`. */
  function YearKeys(att: Attendance, sid: int, year: int): set<Key> {
    set k | k in att && k.0 == sid && att[k].year == year
  }

  /** Those of them whose status is exactly "present". */
  function PresentKeys(att: Attendance, sid: int, year: int): (p: set<Key>)
    ensures p <= YearKeys(att, sid, year)
  {
    set k | k in YearKeys(att, sid, year) && att[k].status == "present"
  }

  /** The group of student `s`: `COUNT(a.id)` counts its matched records,
      `SUM(CASE WHEN a.status='present' ...)` those that read "present"; a
      student without records gets one NULL-extended row, counted 0 and 0. */
  function YearRowFor(s: Student, att: Attendance, year: int): (r: YearRow)
    ensures r.studentId == s.id && r.name == s.name && r.roll == s.roll
    ensures r.presents <= r.totalMarks
  {
    var total := YearKeys(att, s.id, year);
    var presents := PresentKeys(att, s.id, year);
    SubsetCard(presents, total);
    YearRow(s.id, s.name, s.roll, |presents|, |total|)
  }

  /** What the two counts of a group are: the number of the student's records
      of that year, and how many of those read exactly "present" (the
      comparison is case-sensitive, so "Present" is not counted). */
  lemma YearRowCounts(s: Student, att: Attendance, year: int)
    ensures YearRowFor(s, att, year).totalMarks == |set k | k in att && k.0 == s.id && att[k].year == year|
    ensures YearRowFor(s, att, year).presents
            == |set k | k in att && k.0 == s.id && att[k].year == year && att[k].status == "present"|
  {
    assert PresentKeys(att, s.id, year)
           == set k | k in att && k.0 == s.id && att[k].year == year && att[k].status == "present";
  }

  lemma {:induction false} SubsetCard<T>(a: set<T>, b: set<T>)
    requires a <= b
    ensures |a| <= |b|
    decreases |b|
  {
    if a != {} {
      var x :| x in a;
      SubsetCard(a - {x}, b - {x});
    }
  }

  function YearRows(ss: seq<Student>, att: Attendance, year: int): (rows: seq<YearRow>)
    ensures |rows| == |ss|
    ensures forall i :: 0 <= i < |ss| ==> rows[i] == YearRowFor(ss[i], att, year)
  {
    if ss == [] then [] else [YearRowFor(ss[0], att, year)] + YearRows(ss[1..], att, year)
  }

  function GroupStudent(r: YearRow): Student {
    Student(r.studentId, r.name, r.roll)
  }

  /** Rows in `ORDER BY s.roll_no, s.name` order. */
  predicate YearRowsSorted(rows: seq<YearRow>) {
    forall i, j :: 0 <= i < j < |rows| ==> StudentLe(GroupStudent(rows[i]), GroupStudent(rows[j]))
  }

  /** The year view: one row per student, including students without any
      record that year, in (roll_no, name) order. */
  function ViewByYear(students: seq<Student>, att: Attendance, year: int): (rows: seq<YearRow>)
    ensures |rows| == |students|
    ensures forall s :: s in students ==> YearRowFor(s, att, year) in rows
    ensures forall r :: r in rows ==> exists s :: s in students && r == YearRowFor(s, att, year)
    ensures forall i :: 0 <= i < |rows| ==> rows[i].presents <= rows[i].totalMarks
    ensures YearRowsSorted(rows)
  {
    var sorted := SortStudents(students);
    SortedSameMembers(students);
    var rows := YearRows(sorted, att, year);
    assert forall s :: s in students ==> YearRowFor(s, att, year) in rows by {
      forall s | s in students ensures YearRowFor(s, att, year) in rows {
        var i :| 0 <= i < |sorted| && sorted[i] == s;
        assert rows[i] == YearRowFor(s, att, year);
      }
    }
    assert forall r :: r in rows ==> exists s :: s in students && r == YearRowFor(s, att, year) by {
      forall r | r in rows ensures exists s :: s in students && r == YearRowFor(s, att, year) {
        var i :| 0 <= i < |rows| && rows[i] == r;
        assert sorted[i] in students;
      }
    }
    assert YearRowsSorted(rows) by {
      forall i, j | 0 <= i < j < |rows| ensures StudentLe(GroupStudent(rows[i]), GroupStudent(rows[j])) {
        assert GroupStudent(rows[i]) == sorted[i] && GroupStudent(rows[j]) == sorted[j];
      }
    }
    rows
  }

  /** The keys of the year's records that belong to one of `ids`. */
  function RosterYearKeys(att: Attendance, ids: set<int>, year: int): set<Key> {
    set k | k in att && k.0 in ids && att[k].year == year
  }

  function RosterPresentKeys(att: Attendance, ids: set<int>, year: int): set<Key> {
    set k | k in att && k.0 in ids && att[k].year == year && att[k].status == "present"
  }

  function SumTotals(rows: seq<YearRow>): nat {
    if rows == [] then 0 else rows[0].totalMarks + SumTotals(rows[1..])
  }

  function SumPresents(rows: seq<YearRow>): nat {
    if rows == [] then 0 else rows[0].presents + SumPresents(rows[1..])
  }

  lemma DisjointUnionCard<T>(a: set<T>, b: set<T>)
    requires a !! b
    ensures |a + b| == |a| + |b|
  {
  }

  /** Adding one id not yet counted adds exactly that student's records. */
  lemma SplitRosterKeys(att: Attendance, sid: int, ids: set<int>, year: int)
    requires sid !in ids
    ensures |RosterYearKeys(att, {sid} + ids, year)| == |YearKeys(att, sid, year)| + |RosterYearKeys(att, ids, year)|
    ensures |RosterPresentKeys(att, {sid} + ids, year)|
            == |PresentKeys(att, sid, year)| + |RosterPresentKeys(att, ids, year)|
  {
    assert RosterYearKeys(att, {sid} + ids, year) == YearKeys(att, sid, year) + RosterYearKeys(att, ids, year);
    assert RosterPresentKeys(att, {sid} + ids, year) == PresentKeys(att, sid, year) + RosterPresentKeys(att, ids, year);
    DisjointUnionCard(YearKeys(att, sid, year), RosterYearKeys(att, ids, year));
    DisjointUnionCard(PresentKeys(att, sid, year), RosterPresentKeys(att, ids, year));
  }

  /** Splitting the first student off a roster with distinct ids. */
  lemma IdsCons(ss: seq<Student>)
    requires DistinctIds(ss) && ss != []
    ensures DistinctIds(ss[1..])
    ensures Ids(ss) == {ss[0].id} + Ids(ss[1..])
    ensures ss[0].id !in Ids(ss[1..])
  {
    var rest := ss[1..];
    forall i, j | 0 <= i < |rest| && 0 <= j < |rest| && i != j ensures rest[i].id != rest[j].id {
      assert rest[i] == ss[i + 1] && rest[j] == ss[j + 1];
    }
    forall id | id in Ids(ss) ensures id in {ss[0].id} + Ids(rest) {
      var i :| 0 <= i < |ss| && ss[i].id == id;
      if i > 0 { assert rest[i - 1].id == id; }
    }
    forall id | id in Ids(rest) ensures id in Ids(ss) && id != ss[0].id {
      var i :| 0 <= i < |rest| && rest[i].id == id;
      assert ss[i + 1].id == id;
    }
  }

  lemma {:induction false} YearRowsSums(ss: seq<Student>, att: Attendance, year: int)
    requires DistinctIds(ss)
    ensures SumTotals(YearRows(ss, att, year)) == |RosterYearKeys(att, Ids(ss), year)|
    ensures SumPresents(YearRows(ss, att, year)) == |RosterPresentKeys(att, Ids(ss), year)|
  {
    if ss == [] {
      assert RosterYearKeys(att, Ids(ss), year) == {};
      assert RosterPresentKeys(att, Ids(ss), year) == {};
    } else {
      var s, rest := ss[0], ss[1..];
      IdsCons(ss);
      YearRowsSums(rest, att, year);
      var rows := YearRows(ss, att, year);
      assert rows[0] == YearRowFor(s, att, year) && rows[1..] == YearRows(rest, att, year);
      SplitRosterKeys(att, s.id, Ids(rest), year);
    }
  }

  /** Summed over the year view, `total_marks` counts every record of that
      year whose student is on the roll, and `presents` every such record
      reading "present". Records of ids missing from `students` are in
      neither sum. */
  lemma YearViewSums(students: seq<Student>, att: Attendance, year: int)
    requires DistinctIds(students)
    ensures SumTotals(ViewByYear(students, att, year)) == |RosterYearKeys(att, Ids(students), year)|
    ensures SumPresents(ViewByYear(students, att, year)) == |RosterPresentKeys(att, Ids(students), year)|
  {
    SortKeepsDistinctIds(students);
    YearRowsSums(SortStudents(students), att, year);
  }

  /** Two students marked on one day, then student 1 re-marked absent the
      same day: one record each remains, student 1's now reading "absent". */
  lemma RemarkExample()
    ensures var first := MarkAll(map[], "2024-01-10", 2024, [(1, "present"), (2, "absent")]);
            MarkAll(first, "2024-01-10", 2024, [(1, "absent")])
            == map[(1, "2024-01-10") := Mark(2024, "absent"), (2, "2024-01-10") := Mark(2024, "absent")]
  {
    var batch: seq<(int, string)> := [(1, "present"), (2, "absent")];
    assert batch[..1][..0] == [] && batch[..1] == [(1, "present")];
    assert [(1, "absent")][..0] == [];
  }

  /** The year view of that table counts one mark and no presence for each. */
  lemma RemarkExampleYearView()
    ensures var att := map[(1, "2024-01-10") := Mark(2024, "absent"), (2, "2024-01-10") := Mark(2024, "absent")];
            ViewByYear([Student(1, "Amit", "01"), Student(2, "Sara", "02")], att, 2024)
            == [YearRow(1, "Amit", "01", 0, 1), YearRow(2, "Sara", "02", 0, 1)]
  {
    var amit, sara := Student(1, "Amit", "01"), Student(2, "Sara", "02");
    var att := map[(1, "2024-01-10") := Mark(2024, "absent"), (2, "2024-01-10") := Mark(2024, "absent")];
    assert StudentLe(amit, sara) by {
      assert "01"[1..] == "1" && "02"[1..] == "2";
      assert LexLe("01", "02");
    }
    assert SortStudents([amit, sara]) == [amit, sara] by {
      assert [amit, sara][1..] == [sara];
      assert SortStudents([sara]) == [sara] by { assert [sara][1..] == []; }
    }
    assert YearKeys(att, 1, 2024) == {(1, "2024-01-10")};
    assert YearKeys(att, 2, 2024) == {(2, "2024-01-10")};
    assert PresentKeys(att, 1, 2024) == {};
    assert PresentKeys(att, 2, 2024) == {};
  }

  // ---------------------------------------------------------------------
  // The handler's choice between the two views

  datatype View = ByDate(dateRows: seq<DateRow>) | ByYear(yearRows: seq<YearRow>) | NoCriteria

  /** A non-empty `date` parameter selects the date view, whatever `year`
      says; otherwise a `year` selects the year view; with neither the
      handler only flashes "Select date or year to view". `None` stands for a
      parameter that is missing or empty, both falsy in the handler. */
  function ViewAttendance(students: seq<Student>, att: Attendance, qdate: Option<string>, qyear: Option<int>): (v: View)
    ensures v.ByDate? <==> qdate.Some? && qdate.value != []
    ensures v.ByYear? <==> (qdate.None? || qdate.value == []) && qyear.Some?
    ensures v.NoCriteria? <==> (qdate.None? || qdate.value == []) && qyear.None?
    ensures v.ByDate? ==> qdate.Some? && v.dateRows == ViewByDate(students, att, qdate.value)
    ensures v.ByYear? ==> qyear.Some? && v.yearRows == ViewByYear(students, att, qyear.value)
  {
    if qdate.Some? && qdate.value != [] then ByDate(ViewByDate(students, att, qdate.value))
    else if qyear.Some? then ByYear(ViewByYear(students, att, qyear.value))
    else NoCriteria
  }
}
