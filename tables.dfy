/** The two tables of the attendance store, as values, and the meaning of the
    keyed upsert `INSERT ... ON CONFLICT(student_id, date) DO UPDATE SET
    status=excluded.status` applied to a batch of marks. */
module Tables {

  /** A row of `students`: the AUTOINCREMENT id, the name and the roll number. */
  datatype Student = Student(id: int, name: string, roll: string)

  /** The `UNIQUE(student_id, date)` key of an `attendance` row. */
  type Key = (int, string)

  /** The rest of an `attendance` row: the year tag and the status text. */
  datatype Mark = Mark(year: int, status: string)

  /** The `attendance` table. Being a map, it holds at most one row per
      (student_id, date) key, which is the uniqueness constraint. No foreign
      key is enforced: a key's student id need not be in `students`. */
  type Attendance = map<Key, Mark>

  function Ids(students: seq<Student>): set<int> {
    set i | 0 <= i < |students| :: students[i].id
  }

  /** Student ids are distinct; in the store they are even increasing. */
  predicate DistinctIds(students: seq<Student>) {
    forall i, j :: 0 <= i < |students| && 0 <= j < |students| && i != j ==> students[i].id != students[j].id
  }

  /** One upsert: a new key gets the given year and status; an existing key
      keeps its year and only has its status replaced. */
  function Upsert(t: Attendance, sid: int, date: string, year: int, status: string): (r: Attendance)
    ensures r.Keys == t.Keys + {(sid, date)}
    ensures r[(sid, date)].status == status
    ensures r[(sid, date)].year == if (sid, date) in t then t[(sid, date)].year else year
    ensures forall k :: k in t && k != (sid, date) ==> r[k] == t[k]
  {
    if (sid, date) in t then t[(sid, date) := Mark(t[(sid, date)].year, status)]
    else t[(sid, date) := Mark(year, status)]
  }

  /** The batch `for sid, status in marks.items()`, upserting each pair in
      order on the same date and year. Two entries for one id (two JSON keys
      that `int()` parses to the same number) are applied one after the other. */
  function MarkAll(t: Attendance, date: string, year: int, marks: seq<(int, string)>): (r: Attendance)
    ensures t.Keys <= r.Keys
    ensures forall k :: k in r && k !in t ==> k.1 == date
    ensures forall k :: k in t && k.1 != date ==> r[k] == t[k]
  {
    if marks == [] then t
    else
      var last := marks[|marks| - 1];
      Upsert(MarkAll(t, date, year, marks[..|marks| - 1]), last.0, date, year, last.1)
  }

  function BatchIds(marks: seq<(int, string)>): set<int> {
    set i | 0 <= i < |marks| :: marks[i].0
  }

  /** The status the batch leaves for `sid`: that of its last entry. */
  function LastStatus(marks: seq<(int, string)>, sid: int): (r: string)
    requires sid in BatchIds(marks)
    ensures exists i :: 0 <= i < |marks| && marks[i] == (sid, r)
                        && forall j :: i < j < |marks| ==> marks[j].0 != sid
  {
    var init, last := marks[..|marks| - 1], marks[|marks| - 1];
    if last.0 == sid then last.1
    else
      assert sid in BatchIds(init) by {
        var i :| 0 <= i < |marks| && marks[i].0 == sid;
        assert init[i].0 == sid;
      }
      var r := LastStatus(init, sid);
      var i :| 0 <= i < |init| && init[i] == (sid, r) && forall j :: i < j < |init| ==> init[j].0 != sid;
      assert marks[i] == (sid, r);
      r
  }

  /** The batch creates exactly the keys (sid, date) of its ids and no other. */
  lemma {:induction false} MarkAllKeys(t: Attendance, date: string, year: int, marks: seq<(int, string)>)
    ensures MarkAll(t, date, year, marks).Keys == t.Keys + set sid | sid in BatchIds(marks) :: (sid, date)
  {
    if marks != [] {
      var init := marks[..|marks| - 1];
      MarkAllKeys(t, date, year, init);
      assert BatchIds(marks) == BatchIds(init) + {marks[|marks| - 1].0} by {
        forall sid | sid in BatchIds(marks) ensures sid in BatchIds(init) + {marks[|marks| - 1].0} {
          var i :| 0 <= i < |marks| && marks[i].0 == sid;
          if i < |marks| - 1 { assert init[i].0 == sid; }
        }
        forall sid | sid in BatchIds(init) ensures sid in BatchIds(marks) {
          var i :| 0 <= i < |init| && init[i].0 == sid;
          assert marks[i].0 == sid;
        }
      }
    }
  }

  /** Frame: a record whose key is not (sid, date) for an id of the batch is
      left exactly as it was; in particular records on other dates. */
  lemma {:induction false} MarkAllFrame(t: Attendance, date: string, year: int, marks: seq<(int, string)>, k: Key)
    requires k.1 != date || k.0 !in BatchIds(marks)
    ensures k in MarkAll(t, date, year, marks) <==> k in t
    ensures k in t ==> MarkAll(t, date, year, marks)[k] == t[k]
  {
    if marks != [] {
      var init := marks[..|marks| - 1];
      assert k.0 !in BatchIds(marks) ==> k.0 !in BatchIds(init) by {
        if k.0 in BatchIds(init) {
          var i :| 0 <= i < |init| && init[i].0 == k.0;
          assert marks[i].0 == k.0;
        }
      }
      MarkAllFrame(t, date, year, init, k);
      assert k != (marks[|marks| - 1].0, date) by {
        assert marks[|marks| - 1].0 in BatchIds(marks);
      }
    }
  }

  /** After the batch, the one record for (sid, date) of an id in the batch
      holds the status of the id's last entry, and the year it was first
      stored with: the given year only if the key was new. */
  lemma {:induction false} MarkAllRecord(t: Attendance, date: string, year: int, marks: seq<(int, string)>, sid: int)
    requires sid in BatchIds(marks)
    ensures (sid, date) in MarkAll(t, date, year, marks)
    ensures MarkAll(t, date, year, marks)[(sid, date)].status == LastStatus(marks, sid)
    ensures MarkAll(t, date, year, marks)[(sid, date)].year
            == if (sid, date) in t then t[(sid, date)].year else year
  {
    var init := marks[..|marks| - 1];
    var last := marks[|marks| - 1];
    if last.0 != sid {
      assert sid in BatchIds(init) by {
        var i :| 0 <= i < |marks| && marks[i].0 == sid;
        assert init[i].0 == sid;
      }
      MarkAllRecord(t, date, year, init, sid);
    } else if sid in BatchIds(init) {
      MarkAllRecord(t, date, year, init, sid);
    } else {
      MarkAllFrame(t, date, year, init, (sid, date));
    }
  }

  /** Marking the same student twice on one date leaves one record, carrying
      the later status and the year of the first mark. */
  lemma LaterMarkOverwrites(t: Attendance, sid: int, date: string, y1: int, s1: string, y2: int, s2: string)
    requires (sid, date) !in t
    ensures var r := MarkAll(MarkAll(t, date, y1, [(sid, s1)]), date, y2, [(sid, s2)]);
            && r.Keys == t.Keys + {(sid, date)}
            && r[(sid, date)] == Mark(y1, s2)
  {
    assert [(sid, s1)][..0] == [] && [(sid, s2)][..0] == [];
  }

  /** Re-submitting a batch changes nothing: the upsert is idempotent. */
  lemma {:induction false} MarkAllIdempotent(t: Attendance, date: string, year: int, marks: seq<(int, string)>)
    ensures MarkAll(MarkAll(t, date, year, marks), date, year, marks) == MarkAll(t, date, year, marks)
  {
    var once := MarkAll(t, date, year, marks);
    var twice := MarkAll(once, date, year, marks);
    MarkAllKeys(t, date, year, marks);
    MarkAllKeys(once, date, year, marks);
    forall k | k in twice ensures twice[k] == once[k] {
      if k.1 == date && k.0 in BatchIds(marks) {
        MarkAllRecord(t, date, year, marks, k.0);
        MarkAllRecord(once, date, year, marks, k.0);
      } else {
        MarkAllFrame(once, date, year, marks, k);
      }
    }
  }
}
