/** The attendance store: the `students` and `attendance` tables and the
    AUTOINCREMENT counter of `students.id`, with the two handlers that write
    to them, `add_student` and `mark_attendance`. */
module AttendanceStore {
  import opened Text
  import opened Tables

  /** What `add_student` tells the user: the row was inserted under the given
      id, or the "Name required" notice was flashed and nothing was written. */
  datatype AddOutcome = Added(id: int) | NameRequired

  /** AUTOINCREMENT numbering of a roster: ids start at 1, increase in
      insertion order and stay below `nextId`. */
  predicate WellNumbered(students: seq<Student>, nextId: int) {
    && nextId >= 1
    && (forall i :: 0 <= i < |students| ==> 1 <= students[i].id < nextId)
    && (forall i, j :: 0 <= i < j < |students| ==> students[i].id < students[j].id)
  }

  /** Appending a student numbered `nextId` keeps the numbering, and that id
      is not yet taken. */
  lemma AppendKeepsNumbering(students: seq<Student>, nextId: int, s: Student)
    requires WellNumbered(students, nextId) && s.id == nextId
    ensures WellNumbered(students + [s], nextId + 1)
    ensures nextId !in Ids(students)
  {
    forall id | id in Ids(students) ensures id < nextId {
      var i :| 0 <= i < |students| && students[i].id == id;
    }
  }

  class Store {
    var students: seq<Student>
    var attendance: Attendance
    /** The id AUTOINCREMENT hands out next: one more than the largest id
        ever used, as rows are never deleted. */
    var nextId: int

    ghost predicate Valid()
      reads this
      ensures Valid() ==> DistinctIds(students)
    {
      WellNumbered(students, nextId)
    }

    /** `init_db` on a new database file: both tables exist and are empty. */
    constructor ()
      ensures Valid()
      ensures students == [] && attendance == map[] && nextId == 1
    {
      students, attendance, nextId := [], map[], 1;
    }

    /** `add_student`: strips both fields; an empty name writes nothing,
        otherwise one row with a fresh id is appended. Names and roll numbers
        may repeat, and the roll number may be empty. */
    method AddStudent(name: string, rollNo: string) returns (outcome: AddOutcome)
      requires Valid()
      modifies this
      ensures Valid()
      ensures attendance == old(attendance)
      ensures outcome == NameRequired <==> Strip(name) == []
      ensures outcome == NameRequired ==> students == old(students) && nextId == old(nextId)
      ensures outcome.Added? ==>
                && outcome.id == old(nextId)
                && outcome.id !in Ids(old(students))
                && students == old(students) + [Student(outcome.id, Strip(name), Strip(rollNo))]
                && nextId == old(nextId) + 1
    {
      var n := Strip(name);
      var roll := Strip(rollNo);
      if n == [] {
        return NameRequired;
      }
      var s := Student(nextId, n, roll);
      AppendKeepsNumbering(students, nextId, s);
      outcome := Added(nextId);
      students := students + [s];
      nextId := nextId + 1;
    }

    /** `mark_attendance`: upserts every (student id, status) pair of the
        batch, in order, on the given date. Only the records (sid, date) of
        the batch's ids are touched; each ends with the status of its id's
        last entry and keeps the year it was first stored with. */
    method MarkAttendance(date: string, year: int, marks: seq<(int, string)>)
      requires Valid()
      modifies this
      ensures Valid()
      ensures students == old(students) && nextId == old(nextId)
      ensures attendance == MarkAll(old(attendance), date, year, marks)
      ensures attendance.Keys == old(attendance).Keys + set sid | sid in BatchIds(marks) :: (sid, date)
      ensures forall k :: k in old(attendance) && (k.1 != date || k.0 !in BatchIds(marks)) ==>
                attendance[k] == old(attendance)[k]
      ensures forall sid :: sid in BatchIds(marks) ==>
                && attendance[(sid, date)].status == LastStatus(marks, sid)
                && attendance[(sid, date)].year ==
                   if (sid, date) in old(attendance) then old(attendance)[(sid, date)].year else year
    {
      var i := 0;
      while i < |marks|
        invariant 0 <= i <= |marks|
        invariant attendance == MarkAll(old(attendance), date, year, marks[..i])
        invariant students == old(students) && nextId == old(nextId)
      {
        var (sid, status) := marks[i];
        if (sid, date) in attendance {
          attendance := attendance[(sid, date) := Mark(attendance[(sid, date)].year, status)];
        } else {
          attendance := attendance[(sid, date) := Mark(year, status)];
        }
        assert marks[..i + 1][..i] == marks[..i];
        i := i + 1;
      }
      assert marks[..|marks|] == marks;
      MarkAllKeys(old(attendance), date, year, marks);
      forall k | k in old(attendance) && (k.1 != date || k.0 !in BatchIds(marks))
        ensures attendance[k] == old(attendance)[k]
      {
        MarkAllFrame(old(attendance), date, year, marks, k);
      }
      forall sid | sid in BatchIds(marks)
        ensures attendance[(sid, date)].status == LastStatus(marks, sid)
        ensures attendance[(sid, date)].year ==
                if (sid, date) in old(attendance) then old(attendance)[(sid, date)].year else year
      {
        MarkAllRecord(old(attendance), date, year, marks, sid);
      }
    }
  }
}
