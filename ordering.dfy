/** The two orders the store's queries ask SQLite for: students by
    `ORDER BY roll_no, name`, and the distinct dates of a year by
    `ORDER BY date`, both on the BINARY collation of `Text.LexLe`. */
module Ordering {
  import opened Text
  import opened Tables

  /** `s` may come before `t` under `ORDER BY roll_no, name`. */
  predicate StudentLe(s: Student, t: Student) {
    LexLt(s.roll, t.roll) || (s.roll == t.roll && LexLe(s.name, t.name))
  }

  lemma StudentLeTotal(s: Student, t: Student)
    ensures StudentLe(s, t) || StudentLe(t, s)
  {
    LexTrichotomy(s.roll, t.roll);
    LexLeTotal(s.name, t.name);
  }

  lemma StudentLeTransitive(s: Student, t: Student, u: Student)
    requires StudentLe(s, t) && StudentLe(t, u)
    ensures StudentLe(s, u)
  {
    if s.roll == t.roll == u.roll {
      LexLeTransitive(s.name, t.name, u.name);
    } else {
      LexLeReflexive(t.roll);
      LexLeTransitive(s.roll, t.roll, u.roll);
      if s.roll == u.roll {
        LexLeAntisymmetric(s.roll, t.roll);
      }
    }
  }

  predicate Sorted(ss: seq<Student>) {
    forall i, j :: 0 <= i < j < |ss| ==> StudentLe(ss[i], ss[j])
  }

  function Insert(s: Student, ss: seq<Student>): (r: seq<Student>)
    requires Sorted(ss)
    ensures Sorted(r)
    ensures multiset(r) == multiset(ss) + multiset{s}
  {
    if ss == [] then [s]
    else if StudentLe(s, ss[0]) then
      assert forall j :: 0 < j < |ss| ==> StudentLe(s, ss[j]) by {
        forall j | 0 < j < |ss| ensures StudentLe(s, ss[j]) { StudentLeTransitive(s, ss[0], ss[j]); }
      }
      [s] + ss
    else
      var rest := Insert(s, ss[1..]);
      assert forall j :: 0 <= j < |rest| ==> StudentLe(ss[0], rest[j]) by {
        StudentLeTotal(s, ss[0]);
        forall j | 0 <= j < |rest| ensures StudentLe(ss[0], rest[j]) {
          assert rest[j] in multiset(rest);
          if rest[j] != s {
            assert rest[j] in multiset(ss[1..]);
            var k :| 0 <= k < |ss[1..]| && ss[1..][k] == rest[j];
            assert ss[k + 1] == rest[j];
          }
        }
      }
      assert ss == [ss[0]] + ss[1..];
      [ss[0]] + rest
  }

  /** The roster in `ORDER BY roll_no, name` order: sorted, and a permutation
      of the table. Students that tie keep their insertion order, one of the
      orders SQLite may return them in. */
  function SortStudents(ss: seq<Student>): (r: seq<Student>)
    ensures Sorted(r)
    ensures multiset(r) == multiset(ss)
    ensures |r| == |ss|
  {
    if ss == [] then []
    else
      assert ss == [ss[0]] + ss[1..];
      Insert(ss[0], SortStudents(ss[1..]))
  }

  lemma SortedSameMembers(ss: seq<Student>)
    ensures |SortStudents(ss)| == |ss|
    ensures forall s :: s in SortStudents(ss) <==> s in ss
  {
    var r := SortStudents(ss);
    assert |multiset(r)| == |multiset(ss)|;
    forall s ensures s in r <==> s in ss {
      assert s in r <==> s in multiset(r);
      assert s in ss <==> s in multiset(ss);
    }
  }

  /** Sorting keeps ids distinct, so `GROUP BY s.id` on the sorted roster is
      still one group per row. */
  lemma {:induction false} SortKeepsDistinctIds(ss: seq<Student>)
    requires DistinctIds(ss)
    ensures DistinctIds(SortStudents(ss))
    ensures Ids(SortStudents(ss)) == Ids(ss)
  {
    var r := SortStudents(ss);
    SortedSameMembers(ss);
    forall i, j | 0 <= i < |r| && 0 <= j < |r| && i != j ensures r[i].id != r[j].id {
      if r[i].id == r[j].id {
        assert r[i] in ss && r[j] in ss;
        var a :| 0 <= a < |ss| && ss[a] == r[i];
        var b :| 0 <= b < |ss| && ss[b] == r[j];
        assert a == b;
        CountAtLeastTwo(r, i, j);
        CountAtMostOne(ss, a);
      }
    }
    forall id | id in Ids(r) ensures id in Ids(ss) {
      var i :| 0 <= i < |r| && r[i].id == id;
      assert r[i] in ss;
    }
    forall id | id in Ids(ss) ensures id in Ids(r) {
      var i :| 0 <= i < |ss| && ss[i].id == id;
      assert ss[i] in r;
    }
  }

  /** An empty roll number sorts first: in the sorted roster every student
      without a roll number comes before every student with one. */
  lemma EmptyRollsFirst(ss: seq<Student>)
    ensures var r := SortStudents(ss);
            forall i, j :: 0 <= i < |r| && 0 <= j < |r| && r[i].roll == [] && r[j].roll != [] ==> i < j
  {
  }

  lemma {:induction false} CountAtLeastTwo(r: seq<Student>, i: nat, j: nat)
    requires i < |r| && j < |r| && i != j && r[i] == r[j]
    ensures multiset(r)[r[i]] >= 2
  {
    var lo, hi := if i < j then i else j, if i < j then j else i;
    assert r == r[..lo] + [r[lo]] + r[lo + 1..hi] + [r[hi]] + r[hi + 1..];
  }

  lemma {:induction false} CountAtMostOne(ss: seq<Student>, a: nat)
    requires DistinctIds(ss) && a < |ss|
    ensures multiset(ss)[ss[a]] == 1
  {
    if ss != [] {
      assert ss == [ss[0]] + ss[1..];
      if a == 0 {
        assert ss[0] !in ss[1..];
      } else {
        assert ss[a] != ss[0] by { assert ss[a].id != ss[0].id; }
        CountAtMostOne(ss[1..], a - 1);
      }
    }
  }

  /** Strictly ascending in BINARY order, hence also free of duplicates. */
  predicate StrictlyAscending(ds: seq<string>) {
    forall i, j :: 0 <= i < j < |ds| ==> LexLt(ds[i], ds[j])
  }

  predicate IsLeast(m: string, s: set<string>) {
    m in s && forall x :: x in s ==> LexLe(m, x)
  }

  lemma {:induction false} LeastExists(s: set<string>)
    requires s != {}
    ensures exists m :: IsLeast(m, s)
    decreases |s|
  {
    var x :| x in s;
    if s == {x} {
      LexLeReflexive(x);
      assert IsLeast(x, s);
    } else {
      LeastExists(s - {x});
      var m :| IsLeast(m, s - {x});
      LexLeTotal(m, x);
      if LexLe(m, x) {
        assert IsLeast(m, s);
      } else {
        forall y | y in s ensures LexLe(x, y) {
          if y == x { LexLeReflexive(x); } else { LexLeTransitive(x, m, y); }
        }
        assert IsLeast(x, s);
      }
    }
  }

  lemma LeastUnique(s: set<string>)
    ensures forall a, b :: IsLeast(a, s) && IsLeast(b, s) ==> a == b
  {
    forall a, b | IsLeast(a, s) && IsLeast(b, s) ensures a == b {
      LexLeAntisymmetric(a, b);
    }
  }

  /** `SELECT DISTINCT ... ORDER BY`: the members of `s`, each once, in
      strictly ascending order. */
  function SortedSet(s: set<string>): (r: seq<string>)
    ensures StrictlyAscending(r)
    ensures forall d :: d in r <==> d in s
    ensures |r| == |s|
    decreases |s|
  {
    if s == {} then []
    else
      LeastExists(s);
      LeastUnique(s);
      var m :| IsLeast(m, s);
      var rest := SortedSet(s - {m});
      assert forall d :: d in rest ==> LexLt(m, d);
      [m] + rest
  }
}
