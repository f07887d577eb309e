/** The two collections together, and the invariant a consistent database keeps between them:
    a student lists a course exactly when the course lists the student. */
module Enrollment {
  import opened Types

  /** Both collections at one moment. */
  datatype Db = Db(students: map<Id, Student>, courses: map<Id, Course>)

  /** What a service call answers, with the database it leaves behind. */
  datatype Step<T> = Step(result: Result<T>, db: Db)

  /** Every link is reciprocated: a course id in a student's `courses` names a stored course
      whose `enrolled_students` holds the student, and the other way round. Deleted documents
      are kept, so their links are counted too. */
  predicate Linked(db: Db) {
    (forall s, c :: s in db.students && c in db.students[s].courses ==>
      c in db.courses && s in db.courses[c].enrolledStudents) &&
    (forall c, s :: c in db.courses && s in db.courses[c].enrolledStudents ==>
      s in db.students && c in db.students[s].courses)
  }

  /** No list holds an id twice. */
  predicate NoDuplicateLinks(db: Db) {
    (forall s :: s in db.students ==> NoDup(db.students[s].courses)) &&
    (forall c :: c in db.courses ==> NoDup(db.courses[c].enrolledStudents))
  }

  /** Under the link invariant an id no student has is listed by no course. */
  lemma UnknownStudentIsUnlisted(db: Db, x: Id)
    requires Linked(db) && x !in db.students
    ensures forall c :: c in db.courses ==> x !in db.courses[c].enrolledStudents
  {
  }

  /** Under the link invariant an id no course has is listed by no student. */
  lemma UnknownCourseIsUnlisted(db: Db, x: Id)
    requires Linked(db) && x !in db.courses
    ensures forall s :: s in db.students ==> x !in db.students[s].courses
  {
  }

  /** Two databases with the same documents holding the same lists. */
  predicate SameLists(db: Db, db': Db) {
    db'.students.Keys == db.students.Keys && db'.courses.Keys == db.courses.Keys &&
    (forall k :: k in db.students ==> db'.students[k].courses == db.students[k].courses) &&
    (forall k :: k in db.courses ==> db'.courses[k].enrolledStudents == db.courses[k].enrolledStudents)
  }

  /** An edit that keeps every document and every list (such as a soft delete) keeps the link
      invariant. */
  lemma SameListsKeepLinked(db: Db, db': Db)
    requires SameLists(db, db') && Linked(db)
    ensures Linked(db')
  {
    forall k, c | k in db'.students && c in db'.students[k].courses
      ensures c in db'.courses && k in db'.courses[c].enrolledStudents
    {
      assert db'.students[k].courses == db.students[k].courses;
      assert c in db.courses && k in db.courses[c].enrolledStudents;
      assert db'.courses[c].enrolledStudents == db.courses[c].enrolledStudents;
    }
    forall c, k | c in db'.courses && k in db'.courses[c].enrolledStudents
      ensures k in db'.students && c in db'.students[k].courses
    {
      assert db'.courses[c].enrolledStudents == db.courses[c].enrolledStudents;
      assert k in db.students && c in db.students[k].courses;
      assert db'.students[k].courses == db.students[k].courses;
    }
  }

  /** The same edit keeps the lists repeat-free. */
  lemma SameListsKeepNoDuplicates(db: Db, db': Db)
    requires SameLists(db, db') && NoDuplicateLinks(db)
    ensures NoDuplicateLinks(db')
  {
    forall k | k in db'.students ensures NoDup(db'.students[k].courses) {
      assert NoDup(db.students[k].courses);
    }
    forall c | c in db'.courses ensures NoDup(db'.courses[c].enrolledStudents) {
      assert NoDup(db.courses[c].enrolledStudents);
    }
  }

  /** `courseModel.updateMany({ _id: { $in: ids } }, { $push: { enrolled_students: x } })`:
      every course whose id is in `ids` gets `x` appended, unconditionally; the rest are
      untouched. */
  function PushEach(courses: map<Id, Course>, ids: set<Id>, x: Id): (r: map<Id, Course>)
    ensures r.Keys == courses.Keys
    ensures forall k :: k in courses && k in ids ==>
      r[k] == courses[k].(enrolledStudents := courses[k].enrolledStudents + [x])
    ensures forall k :: k in courses && k !in ids ==> r[k] == courses[k]
  {
    map k | k in courses ::
      if k in ids then courses[k].(enrolledStudents := courses[k].enrolledStudents + [x])
      else courses[k]
  }

  /* ---------- the three edits the services make to links ---------- */

  /** A new student stored under `x` whose courses all receive `x` by `$push`. */
  function AddStudent(db: Db, x: Id, s: Student): (r: Db)
    ensures r.students == db.students[x := s]
    ensures r.courses.Keys == db.courses.Keys
    ensures forall k :: k in db.courses && k in s.courses ==>
      r.courses[k].enrolledStudents == db.courses[k].enrolledStudents + [x]
    ensures forall k :: k in db.courses && k !in s.courses ==> r.courses[k] == db.courses[k]
  {
    Db(db.students[x := s], PushEach(db.courses, (set c | c in s.courses), x))
  }

  /** Each side's list gains the other's id. */
  function Link(db: Db, s: Id, c: Id): (r: Db)
    requires s in db.students && c in db.courses
    ensures r.students.Keys == db.students.Keys && r.courses.Keys == db.courses.Keys
    ensures r.students[s] == db.students[s].(courses := db.students[s].courses + [c])
    ensures r.courses[c] == db.courses[c].(enrolledStudents := db.courses[c].enrolledStudents + [s])
    ensures forall k :: k in db.students && k != s ==> r.students[k] == db.students[k]
    ensures forall k :: k in db.courses && k != c ==> r.courses[k] == db.courses[k]
  {
    var st, co := db.students[s], db.courses[c];
    Db(db.students[s := st.(courses := st.courses + [c])],
       db.courses[c := co.(enrolledStudents := co.enrolledStudents + [s])])
  }

  /** Each side's list loses every occurrence of the other's id. */
  function Unlink(db: Db, s: Id, c: Id): (r: Db)
    requires s in db.students && c in db.courses
    ensures r.students.Keys == db.students.Keys && r.courses.Keys == db.courses.Keys
    ensures r.students[s] == db.students[s].(courses := Without(db.students[s].courses, c))
    ensures r.courses[c] == db.courses[c].(enrolledStudents := Without(db.courses[c].enrolledStudents, s))
    ensures c !in r.students[s].courses && s !in r.courses[c].enrolledStudents
    ensures forall k :: k in db.students && k != s ==> r.students[k] == db.students[k]
    ensures forall k :: k in db.courses && k != c ==> r.courses[k] == db.courses[k]
  {
    var st, co := db.students[s], db.courses[c];
    Db(db.students[s := st.(courses := Without(st.courses, c))],
       db.courses[c := co.(enrolledStudents := Without(co.enrolledStudents, s))])
  }

  /** Storing a new student whose distinct courses all exist, and pushing its id into them,
      keeps a linked, repeat-free database linked and repeat-free. */
  lemma AddStudentKeepsLinks(db: Db, x: Id, s: Student)
    requires Linked(db) && NoDuplicateLinks(db)
    requires x !in db.students && NoDup(s.courses)
    requires forall c :: c in s.courses ==> c in db.courses
    ensures Linked(AddStudent(db, x, s)) && NoDuplicateLinks(AddStudent(db, x, s))
  {
    var db' := AddStudent(db, x, s);
    UnknownStudentIsUnlisted(db, x);
    forall c | c in db'.courses ensures NoDup(db'.courses[c].enrolledStudents) {
      if c in s.courses {
        NoDupAppend(db.courses[c].enrolledStudents, x);
      }
    }
    forall k, c | k in db'.students && c in db'.students[k].courses
      ensures c in db'.courses && k in db'.courses[c].enrolledStudents
    {
      if k != x {
        assert db'.students[k] == db.students[k];
      }
    }
    forall c, k | c in db'.courses && k in db'.courses[c].enrolledStudents
      ensures k in db'.students && c in db'.students[k].courses
    {
      if c in s.courses && k == x {
      } else {
        assert k in db.courses[c].enrolledStudents;
      }
    }
  }

  /** Linking two documents that do not hold each other keeps a linked, repeat-free
      database linked and repeat-free. */
  lemma LinkKeepsLinks(db: Db, s: Id, c: Id)
    requires Linked(db) && NoDuplicateLinks(db)
    requires s in db.students && c in db.courses
    requires c !in db.students[s].courses && s !in db.courses[c].enrolledStudents
    ensures Linked(Link(db, s, c)) && NoDuplicateLinks(Link(db, s, c))
  {
    var db' := Link(db, s, c);
    NoDupAppend(db.students[s].courses, c);
    NoDupAppend(db.courses[c].enrolledStudents, s);
    forall k, y | k in db'.students && y in db'.students[k].courses
      ensures y in db'.courses && k in db'.courses[y].enrolledStudents
    {
      if k != s || y != c {
        assert y in db.students[k].courses;
      }
    }
    forall y, k | y in db'.courses && k in db'.courses[y].enrolledStudents
      ensures k in db'.students && y in db'.students[k].courses
    {
      if k != s || y != c {
        assert k in db.courses[y].enrolledStudents;
      }
    }
  }

  /** Unlinking two documents keeps a linked, repeat-free database linked and repeat-free,
      and afterwards neither lists the other. */
  lemma UnlinkKeepsLinks(db: Db, s: Id, c: Id)
    requires Linked(db) && NoDuplicateLinks(db)
    requires s in db.students && c in db.courses
    ensures Linked(Unlink(db, s, c)) && NoDuplicateLinks(Unlink(db, s, c))
    ensures c !in Unlink(db, s, c).students[s].courses
    ensures s !in Unlink(db, s, c).courses[c].enrolledStudents
  {
    var db' := Unlink(db, s, c);
    forall k, y | k in db'.students && y in db'.students[k].courses
      ensures y in db'.courses && k in db'.courses[y].enrolledStudents
    {
      assert y in db.students[k].courses;
    }
    forall y, k | y in db'.courses && k in db'.courses[y].enrolledStudents
      ensures k in db'.students && y in db'.students[k].courses
    {
      assert k in db.courses[y].enrolledStudents;
    }
  }

  /** Updating a key to the value it already holds changes nothing. */
  lemma UpdateToSame<V>(m: map<Id, V>, k: Id, v: V)
    requires k in m && m[k] == v
    ensures m[k := v] == m
  {
  }

  /** Removing the course from a student's list twice is removing it once. */
  lemma DropCourseTwice(m: map<Id, Student>, s: Id, c: Id)
    requires s in m
    ensures var once := m[s := m[s].(courses := Without(m[s].courses, c))];
      once[s := once[s].(courses := Without(once[s].courses, c))] == once
  {
    var v := m[s].(courses := Without(m[s].courses, c));
    var once := m[s := v];
    assert c !in v.courses;
    assert v.(courses := Without(v.courses, c)) == v;
    UpdateToSame(once, s, v);
  }

  /** Removing the student from a course's list twice is removing it once. */
  lemma DropStudentTwice(m: map<Id, Course>, c: Id, s: Id)
    requires c in m
    ensures var once := m[c := m[c].(enrolledStudents := Without(m[c].enrolledStudents, s))];
      once[c := once[c].(enrolledStudents := Without(once[c].enrolledStudents, s))] == once
  {
    var v := m[c].(enrolledStudents := Without(m[c].enrolledStudents, s));
    var once := m[c := v];
    assert s !in v.enrolledStudents;
    assert v.(enrolledStudents := Without(v.enrolledStudents, s)) == v;
    UpdateToSame(once, c, v);
  }

  /** Unlinking twice is unlinking once. */
  lemma UnlinkIdempotent(db: Db, s: Id, c: Id)
    requires s in db.students && c in db.courses
    ensures Unlink(Unlink(db, s, c), s, c) == Unlink(db, s, c)
  {
    DropCourseTwice(db.students, s, c);
    DropStudentTwice(db.courses, c, s);
  }

  /** Removing a course just appended to a student's list that lacked it gives the map back. */
  lemma AddThenDropCourse(m: map<Id, Student>, s: Id, c: Id)
    requires s in m && c !in m[s].courses
    ensures var added := m[s := m[s].(courses := m[s].courses + [c])];
      added[s := added[s].(courses := Without(added[s].courses, c))] == m
  {
    var st := m[s];
    var v := st.(courses := st.courses + [c]);
    var added := m[s := v];
    WithoutAppended(st.courses, c);
    assert v.(courses := Without(v.courses, c)) == st;
    assert added[s := st] == m[s := st];
    UpdateToSame(m, s, st);
  }

  /** Removing a student just appended to a course's list that lacked it gives the map back. */
  lemma AddThenDropStudent(m: map<Id, Course>, c: Id, s: Id)
    requires c in m && s !in m[c].enrolledStudents
    ensures var added := m[c := m[c].(enrolledStudents := m[c].enrolledStudents + [s])];
      added[c := added[c].(enrolledStudents := Without(added[c].enrolledStudents, s))] == m
  {
    var co := m[c];
    var v := co.(enrolledStudents := co.enrolledStudents + [s]);
    var added := m[c := v];
    WithoutAppended(co.enrolledStudents, s);
    assert v.(enrolledStudents := Without(v.enrolledStudents, s)) == co;
    assert added[c := co] == m[c := co];
    UpdateToSame(m, c, co);
  }

  /** Unlinking undoes a link made between documents that did not hold each other. */
  lemma UnlinkUndoesLink(db: Db, s: Id, c: Id)
    requires s in db.students && c in db.courses
    requires c !in db.students[s].courses && s !in db.courses[c].enrolledStudents
    ensures Unlink(Link(db, s, c), s, c) == db
  {
    AddThenDropCourse(db.students, s, c);
    AddThenDropStudent(db.courses, c, s);
  }
}
