/** The student service: creation with course validation and back-links, the update delta,
    deletion, search, and the two enrollment operations that edit both sides of a link. */
module StudentSvc {
  import opened Types
  import opened Duplicator
  import opened Enrollment
  import StudentRepo
  import CourseRepo

  /* ---------- createStudent ---------- */

  /** `student.courses ? student.courses : []` */
  function CourseTexts(input: StudentInput): seq<string> {
    if input.courses.Some? then input.courses.value else []
  }

  /** The course ids denote distinct courses that exist and are not deleted; this is what the
      `courses.length !== student.courses.length` test lets through. */
  predicate CoursesAvailable(courses: map<Id, Course>, ids: seq<string>)
    requires AllIdTexts(ids)
  {
    NoDup(ToIds(ids)) && forall x :: x in ToIds(ids) ==> x in CourseRepo.Active(courses)
  }

  /** What `createStudent` answers and leaves behind. Checks run in order: a repeated course text
      (`Duplicate`), an absent course list or a course id that does not cast (`Internal`),
      courses that are repeated or not all available (`NotFound`), then the repository's own
      checks. On success the student is stored and each of its courses lists it. */
  function CreateStudentStep(db: Db, input: StudentInput, newId: Id, now: int, phoneIndex: bool)
    : (st: Step<Student>)
    ensures HasRepeat(Texts(CourseTexts(input))) ==> st.result == Err(Duplicate)
    ensures (!HasRepeat(Texts(CourseTexts(input))) &&
             (input.courses.None? || !AllIdTexts(input.courses.value))) ==> st.result == Err(Internal)
    ensures input.courses.Some? && AllIdTexts(input.courses.value) && !HasRepeat(Texts(CourseTexts(input))) ==>
      (!CoursesAvailable(db.courses, input.courses.value) ==> st.result == Err(NotFound(NOT_FOUND))) &&
      (CoursesAvailable(db.courses, input.courses.value) ==>
        st.result == StudentRepo.CreateOutcome(db.students, input, newId, now, phoneIndex))
    ensures st.result.Err? ==> st.db == db
    ensures st.result.Ok? ==> (input.courses.Some? && AllIdTexts(input.courses.value) &&
      st.result.value.courses == ToIds(input.courses.value) &&
      st.db == AddStudent(db, newId, st.result.value))
  {
    if HasRepeat(Texts(CourseTexts(input))) then Step(Err(Duplicate), db)
    else if input.courses.None? then Step(Err(Internal), db)
    else
      var ids := input.courses.value;
      match CourseRepo.FindManyOutcome(db.courses, ids)
      case Err(_) => Step(Err(Internal), db)
      case Ok(found) =>
        CourseRepo.FindManyCount(db.courses, ids);
        if |found| != |ids| then Step(Err(NotFound(NOT_FOUND)), db)
        else match StudentRepo.CreateOutcome(db.students, input, newId, now, phoneIndex)
          case Err(e) => Step(Err(e), db)
          case Ok(s) => Step(Ok(s), AddStudent(db, newId, s))
  }

  /** A successful `createStudent` on a consistent database leaves it consistent: each of the
      new student's courses lists it once, and no other link changes. */
  lemma CreateStudentKeepsLinks(db: Db, input: StudentInput, newId: Id, now: int, phoneIndex: bool)
    requires Linked(db) && NoDuplicateLinks(db)
    requires CreateStudentStep(db, input, newId, now, phoneIndex).result.Ok?
    ensures var db' := CreateStudentStep(db, input, newId, now, phoneIndex).db;
      Linked(db') && NoDuplicateLinks(db')
  {
    var st := CreateStudentStep(db, input, newId, now, phoneIndex);
    var ids := input.courses.value;
    assert !HasRepeat(Texts(CourseTexts(input)));
    assert CoursesAvailable(db.courses, ids);
    assert StudentRepo.CreateOutcome(db.students, input, newId, now, phoneIndex).Ok?;
    AddStudentKeepsLinks(db, newId, st.result.value);
  }

  /* ---------- getStudentById / deleteStudentById / searchStudents ---------- */

  /** What `getStudentById` answers: the identifier is validated first, so the failures are
      `BadRequest` and `NotFound`, never `Internal`. */
  function GetStudentOutcome(students: map<Id, Student>, id: string): (r: Result<Student>)
    ensures !IsIdText(id) ==> r == Err(BadRequest)
    ensures r.Ok? <==> IsIdText(id) && ToId(id) in StudentRepo.Active(students)
    ensures r.Ok? ==> r.value == students[ToId(id)]
    ensures IsIdText(id) && r.Err? ==> r.error == NotFound(NOT_FOUND)
  {
    if !IsIdText(id) then Err(BadRequest) else StudentRepo.FindByIdOutcome(students, id)
  }

  /** What `deleteStudentById` answers and leaves behind: only the student's flag changes, and
      the courses keep listing it. */
  function DeleteStudentStep(db: Db, id: string): (st: Step<()>)
    ensures !IsIdText(id) ==> st.result == Err(BadRequest)
    ensures st.result.Ok? <==> IsIdText(id) && ToId(id) in StudentRepo.Active(db.students)
    ensures IsIdText(id) && st.result.Err? ==> st.result.error == NotFound(NOT_FOUND)
    ensures st.result.Err? ==> st.db == db
    ensures st.result.Ok? ==> st.db == db.(students := StudentRepo.SoftDeleted(db.students, ToId(id)))
  {
    if !IsIdText(id) then Step(Err(BadRequest), db)
    else match StudentRepo.DeleteOutcome(db.students, id)
      case Err(e) => Step(Err(e), db)
      case Ok(_) => Step(Ok(()), db.(students := StudentRepo.SoftDeleted(db.students, ToId(id))))
  }

  /** A soft delete keeps every list, so it keeps the link invariant; the deleted student is
      still listed by its courses. */
  lemma DeleteStudentKeepsLinks(db: Db, id: string)
    requires Linked(db) && NoDuplicateLinks(db)
    requires DeleteStudentStep(db, id).result.Ok?
    ensures var db' := DeleteStudentStep(db, id).db;
      Linked(db') && NoDuplicateLinks(db') &&
      forall c :: c in db.students[ToId(id)].courses ==> ToId(id) in db'.courses[c].enrolledStudents
  {
    var db' := DeleteStudentStep(db, id).db;
    assert db'.courses == db.courses;
    assert db'.students == StudentRepo.SoftDeleted(db.students, ToId(id));
    assert SameLists(db, db');
    SameListsKeepLinked(db, db');
    SameListsKeepNoDuplicates(db, db');
  }

  /** The filter `searchStudents` builds: the term against either name or the phone number. */
  function StudentSearch(term: string): (q: StudentRepo.StudentQuery)
    ensures |q.clauses| == 3
    ensures forall s: Student :: StudentRepo.MatchesQuery(q, s) <==>
      MatchesIgnoringCase(s.fullNameEn, term) || MatchesIgnoringCase(s.fullNameKm, term) ||
      MatchesIgnoringCase(s.phoneNumber, term)
  {
    var q := StudentRepo.AnyOf([StudentRepo.Regex(StudentRepo.FullNameEn, term),
      StudentRepo.Regex(StudentRepo.FullNameKm, term), StudentRepo.Regex(StudentRepo.PhoneNumber, term)]);
    forall s: Student
      ensures StudentRepo.MatchesQuery(q, s) <==>
        MatchesIgnoringCase(s.fullNameEn, term) || MatchesIgnoringCase(s.fullNameKm, term) ||
        MatchesIgnoringCase(s.phoneNumber, term)
    {
      if StudentRepo.MatchesQuery(q, s) {
        var i :| 0 <= i < |q.clauses| &&
          MatchesIgnoringCase(StudentRepo.FieldText(s, q.clauses[i].field), q.clauses[i].term);
        assert i == 0 || i == 1 || i == 2;
      }
      if MatchesIgnoringCase(s.fullNameEn, term) {
        assert StudentRepo.FieldText(s, q.clauses[0].field) == s.fullNameEn;
      }
      if MatchesIgnoringCase(s.fullNameKm, term) {
        assert StudentRepo.FieldText(s, q.clauses[1].field) == s.fullNameKm;
      }
      if MatchesIgnoringCase(s.phoneNumber, term) {
        assert StudentRepo.FieldText(s, q.clauses[2].field) == s.phoneNumber;
      }
    }
    q
  }

  /** With the empty term every non-deleted student matches. */
  lemma EmptySearchFindsAll(students: map<Id, Student>)
    requires StudentRepo.Active(students) != map[]
    ensures StudentRepo.SearchOutcome(students, StudentSearch("")).Ok?
    ensures StudentRepo.SearchOutcome(students, StudentSearch("")).value == StudentRepo.Active(students)
  {
    var q := StudentSearch("");
    var active := StudentRepo.Active(students);
    forall j | j in active ensures StudentRepo.MatchesQuery(q, students[j]) {
      EmptyTermMatchesEverything(students[j].fullNameEn);
    }
    var k :| k in active;
    var r := StudentRepo.SearchOutcome(students, q);
    assert StudentRepo.MatchesQuery(q, students[k]);
    assert q.clauses != [];
    assert r.Ok?;
    assert r.value.Keys == active.Keys;
  }

  /* ---------- updateStudentById ---------- */

  /** The `updateFields` object. Each scalar field is kept only when supplied and different;
      the date is compared as an instant. The course list becomes a `$addToSet` entry when it
      shares no id with the stored list, and is dropped when it does; the check throws, and the
      whole call fails `Internal`, on a text that is not an id. */
  function StudentDelta(existing: Student, p: StudentPatch): (r: Result<StudentRepo.StudentUpdate>)
    ensures r.Err? <==> (p.courses.Some? &&
      Disjointness(Some(Texts(p.courses.value)), Some(ObjectIds(existing.courses))).Err?)
    ensures r.Err? ==> r.error == Internal
    ensures r.Ok? ==> (r.value.addToSetCourses.Some? <==> (p.courses.Some? && AllIdTexts(p.courses.value) &&
      forall i :: 0 <= i < |p.courses.value| ==> ToId(p.courses.value[i]) !in existing.courses))
    ensures r.Ok? ==> StudentRepo.UpdateCastable(r.value)
    ensures r.Ok? ==> (r.value.fullNameEn.Some? <==>
      SuppliedText(p.fullNameEn) && p.fullNameEn.value != existing.fullNameEn)
    ensures r.Ok? ==> (r.value.fullNameKm.Some? <==>
      SuppliedText(p.fullNameKm) && p.fullNameKm.value != existing.fullNameKm)
    ensures r.Ok? ==> (r.value.gender.Some? <==> p.gender.Some? && p.gender.value != existing.gender)
    ensures r.Ok? ==> (r.value.dateOfBirth.Some? <==>
      p.dateOfBirth.Some? && p.dateOfBirth.value != existing.dateOfBirth)
    ensures r.Ok? ==> (r.value.phoneNumber.Some? <==>
      SuppliedText(p.phoneNumber) && p.phoneNumber.value != existing.phoneNumber)
    ensures r.Ok? && r.value.fullNameEn.Some? ==> r.value.fullNameEn == p.fullNameEn
    ensures r.Ok? && r.value.fullNameKm.Some? ==> r.value.fullNameKm == p.fullNameKm
    ensures r.Ok? && r.value.gender.Some? ==> r.value.gender == p.gender
    ensures r.Ok? && r.value.dateOfBirth.Some? ==> r.value.dateOfBirth == p.dateOfBirth
    ensures r.Ok? && r.value.phoneNumber.Some? ==> r.value.phoneNumber == p.phoneNumber
    ensures r.Ok? && r.value.addToSetCourses.Some? ==> r.value.addToSetCourses == p.courses
  {
    var courses :=
      if p.courses.Some? then Disjointness(Some(Texts(p.courses.value)), Some(ObjectIds(existing.courses)))
      else Ok(false);
    TextsAgainstIds(if p.courses.Some? then p.courses.value else [], existing.courses);
    if courses.Err? then Err(Internal)
    else Ok(StudentRepo.StudentUpdate(
      ChangedText(p.fullNameEn, existing.fullNameEn),
      ChangedText(p.fullNameKm, existing.fullNameKm),
      Changed(p.gender, existing.gender),
      Changed(p.dateOfBirth, existing.dateOfBirth),
      ChangedText(p.phoneNumber, existing.phoneNumber),
      if courses.value then p.courses else None))
  }

  /** The keys of `updateFields`, by their names in the request. The course list appears under
      `$addToSet`, never under `courses`. */
  function UpdateKeys(u: StudentRepo.StudentUpdate): (keys: set<string>)
    ensures "courses" !in keys
    ensures keys == {} <==> u == StudentRepo.StudentUpdate(None, None, None, None, None, None)
  {
    (if u.fullNameEn.Some? then {"full_name_en"} else {}) +
    (if u.fullNameKm.Some? then {"full_name_km"} else {}) +
    (if u.gender.Some? then {"gender"} else {}) +
    (if u.dateOfBirth.Some? then {"date_of_birth"} else {}) +
    (if u.phoneNumber.Some? then {"phone_number"} else {}) +
    (if u.addToSetCourses.Some? then {"$addToSet"} else {})
  }

  /** The reference meaning of a student patch: every supplied field written over the stored
      one, and a course list that shares nothing with the stored list added to it. */
  function Merge(existing: Student, p: StudentPatch): Student {
    existing.(
      fullNameEn := if SuppliedText(p.fullNameEn) then p.fullNameEn.value else existing.fullNameEn,
      fullNameKm := if SuppliedText(p.fullNameKm) then p.fullNameKm.value else existing.fullNameKm,
      gender := if p.gender.Some? then p.gender.value else existing.gender,
      dateOfBirth := if p.dateOfBirth.Some? then p.dateOfBirth.value else existing.dateOfBirth,
      phoneNumber := if SuppliedText(p.phoneNumber) then p.phoneNumber.value else existing.phoneNumber,
      courses :=
        if p.courses.Some? && AllIdTexts(p.courses.value) &&
           forall i :: 0 <= i < |p.courses.value| ==> ToId(p.courses.value[i]) !in existing.courses
        then AddToSet(existing.courses, ToIds(p.courses.value))
        else existing.courses)
  }

  /** Dropping unchanged fields from the delta loses nothing: applying the delta gives the same
      document as writing the whole patch; and an empty delta means the patch changes nothing. */
  lemma DeltaAgreesWithMerge(existing: Student, p: StudentPatch)
    requires StudentDelta(existing, p).Ok?
    ensures StudentRepo.ApplyUpdate(existing, StudentDelta(existing, p).value) == Merge(existing, p)
    ensures UpdateKeys(StudentDelta(existing, p).value) == {} ==> Merge(existing, p) == existing
  {
  }

  /** `courses: []` shares nothing with any list, so it is always a change, even though it adds
      nothing. */
  lemma EmptyCoursesPatchIsAChange(existing: Student, p: StudentPatch)
    requires p.courses == Some([])
    ensures StudentDelta(existing, p).Ok?
    ensures UpdateKeys(StudentDelta(existing, p).value) != {}
    ensures StudentRepo.ApplyUpdate(existing, StudentDelta(existing, p).value).courses == existing.courses
  {
    TextsAgainstIds([], existing.courses);
  }

  /** A course list that overlaps the stored one is dropped whole, new ids included. */
  lemma OverlappingCoursesDropped(existing: Student, p: StudentPatch, i: nat)
    requires p.courses.Some? && AllIdTexts(p.courses.value)
    requires i < |p.courses.value| && ToId(p.courses.value[i]) in existing.courses
    ensures StudentDelta(existing, p).Ok?
    ensures StudentRepo.ApplyUpdate(existing, StudentDelta(existing, p).value).courses == existing.courses
  {
    TextsAgainstIds(p.courses.value, existing.courses);
    DisjointFromMeaning(Texts(p.courses.value), ObjectIds(existing.courses));
  }

  /** What `updateStudentById` answers and leaves behind. The branch that would validate the
      courses and link them back tests the key `courses`, which the delta never has; so course
      records never change here. */
  function UpdateStudentStep(db: Db, id: string, p: StudentPatch, phoneIndex: bool): (st: Step<Student>)
    ensures !IsIdText(id) ==> st.result == Err(BadRequest)
    ensures IsIdText(id) && ToId(id) !in StudentRepo.Active(db.students) ==> st.result == Err(NotFound(NOT_FOUND))
    ensures st.db.courses == db.courses
    ensures st.result.Err? ==> st.db == db
    ensures st.result.Ok? ==> (IsIdText(id) && ToId(id) in StudentRepo.Active(db.students) &&
      st.result.value == Merge(db.students[ToId(id)], p) &&
      st.db.students == db.students[ToId(id) := st.result.value])
    ensures st.result == Err(NoChanges) ==> Merge(db.students[ToId(id)], p) == db.students[ToId(id)]
    ensures IsIdText(id) && ToId(id) in StudentRepo.Active(db.students) ==>
      var d := StudentDelta(db.students[ToId(id)], p);
      (d.Err? ==> st.result == Err(Internal)) &&
      (d.Ok? ==> (st.result == Err(NoChanges) <==> UpdateKeys(d.value) == {})) &&
      (d.Ok? && UpdateKeys(d.value) != {} ==>
        st.result == StudentRepo.UpdateOutcome(db.students, id, d.value, phoneIndex) &&
        (st.result.Ok? <==> !StudentRepo.UpdateRejected(db.students, ToId(id), d.value, phoneIndex)))
  {
    if !IsIdText(id) then Step(Err(BadRequest), db)
    else match StudentRepo.FindByIdOutcome(db.students, id)
      case Err(e) => Step(Err(e), db)
      case Ok(existing) =>
        match StudentDelta(existing, p)
        case Err(_) => Step(Err(Internal), db)
        case Ok(u) =>
          DeltaAgreesWithMerge(existing, p);
          if UpdateKeys(u) == {} then Step(Err(NoChanges), db)
          else match StudentRepo.UpdateOutcome(db.students, id, u, phoneIndex)
            case Err(e) => Step(Err(e), db)
            case Ok(s) => Step(Ok(s), db.(students := db.students[ToId(id) := s]))
  }

  /** Adding a course through the update breaks the link invariant: the student lists the
      course, the course does not list the student. */
  lemma UpdateCoursesBreaksLinks(db: Db, id: string, p: StudentPatch, cid: string)
    requires Linked(db) && IsIdText(id) && ToId(id) in StudentRepo.Active(db.students)
    requires IsIdText(cid) && ToId(cid) in db.courses && ToId(cid) !in db.students[ToId(id)].courses
    requires p == StudentPatch(None, None, None, None, None, Some([cid]))
    ensures UpdateStudentStep(db, id, p, false).result.Ok?
    ensures !Linked(UpdateStudentStep(db, id, p, false).db)
  {
    var existing := db.students[ToId(id)];
    TextsAgainstIds([cid], existing.courses);
    assert AllIdTexts([cid]);
    assert ToIds([cid]) == [ToId(cid)];
    var db' := UpdateStudentStep(db, id, p, false).db;
    assert ToId(cid) in db'.students[ToId(id)].courses;
    assert ToId(id) !in db'.courses[ToId(cid)].enrolledStudents;
  }

  /* ---------- register / removeCourse ---------- */

  /** What `register` answers and leaves behind: both ids well formed and both documents
      visible, neither already holding the other; then each list gains the other's id. There is
      no capacity check. */
  function RegisterStep(db: Db, sid: string, cid: string): (st: Step<Student>)
    ensures !IsIdText(sid) || !IsIdText(cid) ==> st.result == Err(BadRequest)
    ensures IsIdText(sid) && IsIdText(cid) && ToId(sid) !in StudentRepo.Active(db.students) ==>
      st.result == Err(NotFound(NOT_FOUND))
    ensures IsIdText(sid) && IsIdText(cid) && ToId(cid) !in CourseRepo.Active(db.courses) ==>
      st.result == Err(NotFound(NOT_FOUND))
    ensures (IsIdText(sid) && IsIdText(cid) && ToId(sid) in StudentRepo.Active(db.students) &&
             ToId(cid) in CourseRepo.Active(db.courses)) ==>
      (st.result.Ok? <==> ToId(cid) !in db.students[ToId(sid)].courses &&
                          ToId(sid) !in db.courses[ToId(cid)].enrolledStudents) &&
      (st.result.Err? ==> st.result.error == Duplicate)
    ensures st.result.Err? ==> st.db == db
    ensures st.result.Ok? ==> (IsIdText(sid) && IsIdText(cid) &&
      ToId(sid) in db.students && ToId(cid) in db.courses &&
      st.db == Link(db, ToId(sid), ToId(cid)) &&
      st.result.value == st.db.students[ToId(sid)])
  {
    if !IsIdText(sid) || !IsIdText(cid) then Step(Err(BadRequest), db)
    else match StudentRepo.FindByIdOutcome(db.students, sid)
      case Err(e) => Step(Err(e), db)
      case Ok(s) =>
        match CourseRepo.FindByIdOutcome(db.courses, cid)
        case Err(e) => Step(Err(e), db)
        case Ok(c) =>
          var sKey, cKey := ToId(sid), ToId(cid);
          if cKey in s.courses || sKey in c.enrolledStudents then Step(Err(Duplicate), db)
          else
            var db' := Link(db, sKey, cKey);
            Step(Ok(db'.students[sKey]), db')
  }

  /** `register` keeps a linked, repeat-free database linked and repeat-free. */
  lemma RegisterKeepsLinks(db: Db, sid: string, cid: string)
    requires Linked(db) && NoDuplicateLinks(db)
    requires RegisterStep(db, sid, cid).result.Ok?
    ensures Linked(RegisterStep(db, sid, cid).db) && NoDuplicateLinks(RegisterStep(db, sid, cid).db)
  {
    LinkKeepsLinks(db, ToId(sid), ToId(cid));
  }

  /** Registering the same pair twice: the second call fails `Duplicate` and changes nothing. */
  lemma RegisterTwiceIsDuplicate(db: Db, sid: string, cid: string)
    requires RegisterStep(db, sid, cid).result.Ok?
    ensures var db' := RegisterStep(db, sid, cid).db;
      RegisterStep(db', sid, cid) == Step(Err(Duplicate), db')
  {
    var db' := RegisterStep(db, sid, cid).db;
    assert ToId(cid) in db'.students[ToId(sid)].courses;
  }

  /** A course already at its limit still accepts a registration, and then holds more students
      than its limit. */
  lemma RegisterIgnoresCapacity(db: Db, sid: string, cid: string)
    requires IsIdText(sid) && IsIdText(cid)
    requires ToId(sid) in StudentRepo.Active(db.students) && ToId(cid) in CourseRepo.Active(db.courses)
    requires ToId(cid) !in db.students[ToId(sid)].courses && ToId(sid) !in db.courses[ToId(cid)].enrolledStudents
    requires |db.courses[ToId(cid)].enrolledStudents| >= db.courses[ToId(cid)].limitNumberOfStudents
    ensures RegisterStep(db, sid, cid).result.Ok?
    ensures var c' := RegisterStep(db, sid, cid).db.courses[ToId(cid)];
      |c'.enrolledStudents| > c'.limitNumberOfStudents
  {
  }

  /** What `removeCourse` answers and leaves behind: both ids well formed and both documents
      visible; then every occurrence of each id leaves the other's list, whether or not a link
      existed. */
  function RemoveCourseStep(db: Db, sid: string, cid: string): (st: Step<Student>)
    ensures !IsIdText(sid) || !IsIdText(cid) ==> st.result == Err(BadRequest)
    ensures st.result.Ok? <==> (IsIdText(sid) && IsIdText(cid) &&
      ToId(sid) in StudentRepo.Active(db.students) && ToId(cid) in CourseRepo.Active(db.courses))
    ensures IsIdText(sid) && IsIdText(cid) && st.result.Err? ==> st.result.error == NotFound(NOT_FOUND)
    ensures st.result.Err? ==> st.db == db
    ensures st.result.Ok? ==> (st.db == Unlink(db, ToId(sid), ToId(cid)) &&
      st.result.value == st.db.students[ToId(sid)])
  {
    if !IsIdText(sid) || !IsIdText(cid) then Step(Err(BadRequest), db)
    else match StudentRepo.FindByIdOutcome(db.students, sid)
      case Err(e) => Step(Err(e), db)
      case Ok(s) =>
        match CourseRepo.FindByIdOutcome(db.courses, cid)
        case Err(e) => Step(Err(e), db)
        case Ok(c) =>
          var db' := Unlink(db, ToId(sid), ToId(cid));
          Step(Ok(db'.students[ToId(sid)]), db')
  }

  /** `removeCourse` keeps a linked, repeat-free database linked and repeat-free, and
      afterwards neither side lists the other. */
  lemma RemoveCourseKeepsLinks(db: Db, sid: string, cid: string)
    requires Linked(db) && NoDuplicateLinks(db)
    requires RemoveCourseStep(db, sid, cid).result.Ok?
    ensures var db' := RemoveCourseStep(db, sid, cid).db;
      Linked(db') && NoDuplicateLinks(db') &&
      ToId(cid) !in db'.students[ToId(sid)].courses && ToId(sid) !in db'.courses[ToId(cid)].enrolledStudents
  {
    UnlinkKeepsLinks(db, ToId(sid), ToId(cid));
  }

  /** A second `removeCourse` of the same pair succeeds and changes nothing more. */
  lemma RemoveCourseIdempotent(db: Db, sid: string, cid: string)
    requires RemoveCourseStep(db, sid, cid).result.Ok?
    ensures var st := RemoveCourseStep(db, sid, cid);
      RemoveCourseStep(st.db, sid, cid) == st
  {
    UnlinkIdempotent(db, ToId(sid), ToId(cid));
  }

  /** `removeCourse` undoes `register`: the database is back to what it was. */
  lemma RemoveUndoesRegister(db: Db, sid: string, cid: string)
    requires RegisterStep(db, sid, cid).result.Ok?
    ensures var st := RemoveCourseStep(RegisterStep(db, sid, cid).db, sid, cid);
      st.result == Ok(db.students[ToId(sid)]) && st.db == db
  {
    UnlinkUndoesLink(db, ToId(sid), ToId(cid));
  }

  /* ---------- the service ---------- */

  class StudentService {
    const students: StudentRepo.StudentRepository
    const courses: CourseRepo.CourseRepository

    constructor (students: StudentRepo.StudentRepository, courses: CourseRepo.CourseRepository)
      ensures this.students == students && this.courses == courses
    {
      this.students := students;
      this.courses := courses;
    }

    /** Both collections as they stand. */
    function Current(): Db
      reads students, courses
    {
      Db(students.table, courses.table)
    }

    method CreateStudent(input: StudentInput, newId: Id, now: int) returns (r: Result<Student>)
      modifies students, courses
      ensures Step(r, Current()) == CreateStudentStep(old(Current()), input, newId, now, students.phoneIndex)
    {
      ghost var db := Current();
      ghost var st := CreateStudentStep(db, input, newId, now, students.phoneIndex);
      var duplicated := HasDuplicates(Texts(CourseTexts(input)));
      if duplicated {
        assert st == Step(Err(Duplicate), db);
        return Err(Duplicate);
      }
      // An absent list reaches `{ $in: undefined }` and `student.courses!.length`, which throws.
      if input.courses.None? {
        assert st == Step(Err(Internal), db);
        return Err(Internal);
      }
      var ids := input.courses.value;
      var found := courses.FindManyByQuery(ids);
      if found.Err? {
        assert st == Step(Err(Internal), db);
        return Err(Internal);
      }
      if |found.value| != |ids| {
        assert st == Step(Err(NotFound(NOT_FOUND)), db);
        return Err(NotFound(NOT_FOUND));
      }
      r := students.Create(input, newId, now);
      if r.Err? {
        assert st == Step(r, db);
        return;
      }
      // courseModel.updateMany(..., { $push: { enrolled_students: newStudent._id } })
      courses.table := PushEach(courses.table, (set x | x in ToIds(ids)), newId);
      assert st == Step(r, AddStudent(db, newId, r.value));
    }

    method GetStudentById(id: string) returns (r: Result<Student>)
      ensures r == GetStudentOutcome(students.table, id)
    {
      if !IsIdText(id) {
        return Err(BadRequest);
      }
      r := students.FindById(id);
    }

    method UpdateStudentById(id: string, p: StudentPatch) returns (r: Result<Student>)
      modifies students
      ensures Step(r, Current()) == UpdateStudentStep(old(Current()), id, p, students.phoneIndex)
    {
      if !IsIdText(id) {
        return Err(BadRequest);
      }
      var existing := students.FindById(id);
      if existing.Err? {
        return Err(existing.error);
      }
      var delta := StudentDelta(existing.value, p);
      if delta.Err? {
        return Err(Internal);
      }
      if UpdateKeys(delta.value) == {} {
        return Err(NoChanges);
      }
      r := students.UpdateById(id, delta.value);
    }

    method DeleteStudentById(id: string) returns (r: Result<()>)
      modifies students
      ensures Step(r, Current()) == DeleteStudentStep(old(Current()), id)
    {
      if !IsIdText(id) {
        return Err(BadRequest);
      }
      r := students.DeleteById(id);
    }

    method SearchStudents(term: string) returns (r: Result<map<Id, Student>>)
      ensures r == StudentRepo.SearchOutcome(students.table, StudentSearch(term))
    {
      r := students.SearchByQuery(StudentSearch(term));
    }

    method Register(sid: string, cid: string) returns (r: Result<Student>)
      modifies students, courses
      ensures Step(r, Current()) == RegisterStep(old(Current()), sid, cid)
    {
      if !IsIdText(sid) || !IsIdText(cid) {
        return Err(BadRequest);
      }
      var student := students.FindById(sid);
      if student.Err? {
        return Err(student.error);
      }
      var course := courses.FindById(cid);
      if course.Err? {
        return Err(course.error);
      }
      var s, c := student.value, course.value;
      var sKey, cKey := ToId(sid), ToId(cid);
      if cKey in s.courses {
        return Err(Duplicate);
      }
      if sKey in c.enrolledStudents {
        return Err(Duplicate);
      }
      s := s.(courses := s.courses + [cKey]);
      c := c.(enrolledStudents := c.enrolledStudents + [sKey]);
      students.table := students.table[sKey := s];   // student.save()
      courses.table := courses.table[cKey := c];     // course.save()
      return Ok(s);
    }

    method RemoveCourse(sid: string, cid: string) returns (r: Result<Student>)
      modifies students, courses
      ensures Step(r, Current()) == RemoveCourseStep(old(Current()), sid, cid)
    {
      if !IsIdText(sid) || !IsIdText(cid) {
        return Err(BadRequest);
      }
      var student := students.FindById(sid);
      if student.Err? {
        return Err(student.error);
      }
      var course := courses.FindById(cid);
      if course.Err? {
        return Err(course.error);
      }
      var s, c := student.value, course.value;
      var sKey, cKey := ToId(sid), ToId(cid);
      s := s.(courses := Without(s.courses, cKey));
      students.table := students.table[sKey := s];   // student.save()
      c := c.(enrolledStudents := Without(c.enrolledStudents, sKey));
      courses.table := courses.table[cKey := c];     // course.save()
      return Ok(s);
    }
  }
}
