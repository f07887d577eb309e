/** The course service: creation, the update delta, lookup and deletion, the two search filter
    builders and the report. */
module CourseSvc {
  import opened Types
  import opened Duplicator
  import opened Enrollment
  import StudentRepo
  import CourseRepo

  /* ---------- createCourse ---------- */

  /** What `createCourse` answers and leaves behind: a repeated student text fails `Duplicate`;
      otherwise the course is stored as given. It neither checks that the students exist nor
      touches any student record. */
  function CreateCourseStep(db: Db, input: CourseInput, newId: Id, now: int): (st: Step<Course>)
    ensures HasRepeat(Texts(input.enrolledStudents)) ==> st.result == Err(Duplicate)
    ensures st.result.Ok? <==> (!HasRepeat(Texts(input.enrolledStudents)) &&
      AllIdTexts(input.enrolledStudents) && newId !in db.courses)
    ensures st.result.Err? ==> st.result.error in {Duplicate, Internal}
    ensures st.db.students == db.students
    ensures st.result.Err? ==> st.db == db
    ensures st.result.Ok? ==> (AllIdTexts(input.enrolledStudents) &&
      st.result.value == CourseRepo.NewCourse(input, now) &&
      st.db.courses == db.courses[newId := st.result.value])
  {
    if HasRepeat(Texts(input.enrolledStudents)) then Step(Err(Duplicate), db)
    else match CourseRepo.CreateOutcome(db.courses, input, newId, now)
      case Err(_) => Step(Err(Internal), db)
      case Ok(c) => Step(Ok(c), db.(courses := db.courses[newId := c]))
  }

  /** A course created with students breaks the link invariant: it lists a student whose own
      list cannot hold the new course id. */
  lemma CreateCourseBreaksLinks(db: Db, input: CourseInput, newId: Id, now: int)
    requires Linked(db)
    requires CreateCourseStep(db, input, newId, now).result.Ok?
    requires input.enrolledStudents != []
    ensures !Linked(CreateCourseStep(db, input, newId, now).db)
  {
    var db' := CreateCourseStep(db, input, newId, now).db;
    var x := ToId(input.enrolledStudents[0]);
    assert x in db'.courses[newId].enrolledStudents;
    UnknownCourseIsUnlisted(db, newId);
    assert x in db.students ==> newId !in db'.students[x].courses;
  }

  /** The repeat check compares raw texts, so the same student written in two cases passes it
      and is stored twice. */
  lemma CreateCourseStoresCaseVariantsTwice(db: Db, input: CourseInput, newId: Id, now: int)
    requires newId !in db.courses
    requires input.enrolledStudents == [seq(24, _ => 'A'), seq(24, _ => 'a')]
    ensures var st := CreateCourseStep(db, input, newId, now);
      st.result.Ok? && |st.result.value.enrolledStudents| == 2 && !NoDup(st.result.value.enrolledStudents)
  {
    CaseVariants();
    HasRepeatOfTexts(input.enrolledStudents);
    assert NoDup(input.enrolledStudents);
    assert AllIdTexts(input.enrolledStudents);
    var ids := ToIds(input.enrolledStudents);
    assert ids[0] == ids[1];
  }

  /* ---------- getCourseById / deleteCourseById ---------- */

  /** What `getCourseById` answers: the identifier is validated first, so the failures are
      `BadRequest` and `NotFound`, never `Internal`. */
  function GetCourseOutcome(courses: map<Id, Course>, id: string): (r: Result<Course>)
    ensures !IsIdText(id) ==> r == Err(BadRequest)
    ensures r.Ok? <==> IsIdText(id) && ToId(id) in CourseRepo.Active(courses)
    ensures r.Ok? ==> r.value == courses[ToId(id)]
    ensures IsIdText(id) && r.Err? ==> r.error == NotFound(NOT_FOUND)
  {
    if !IsIdText(id) then Err(BadRequest) else CourseRepo.FindByIdOutcome(courses, id)
  }

  /** What `deleteCourseById` answers and leaves behind: only the course's flag changes, and
      its students keep listing it. */
  function DeleteCourseStep(db: Db, id: string): (st: Step<()>)
    ensures !IsIdText(id) ==> st.result == Err(BadRequest)
    ensures st.result.Ok? <==> IsIdText(id) && ToId(id) in CourseRepo.Active(db.courses)
    ensures IsIdText(id) && st.result.Err? ==> st.result.error == NotFound(NOT_FOUND)
    ensures st.result.Err? ==> st.db == db
    ensures st.result.Ok? ==> st.db == db.(courses := CourseRepo.SoftDeleted(db.courses, ToId(id)))
  {
    if !IsIdText(id) then Step(Err(BadRequest), db)
    else match CourseRepo.DeleteOutcome(db.courses, id)
      case Err(e) => Step(Err(e), db)
      case Ok(_) => Step(Ok(()), db.(courses := CourseRepo.SoftDeleted(db.courses, ToId(id))))
  }

  /* ---------- updateCourseById ---------- */

  /** A number is truthy when it is not zero. */
  function ChangedNumber(o: Option<int>, current: int): (r: Option<int>)
    ensures r.Some? <==> o.Some? && o.value != 0 && o.value != current
    ensures r.Some? ==> r == o
    ensures Pick(r, current) == (if o.Some? && o.value != 0 then o.value else current)
  {
    if o.Some? && o.value != 0 then Changed(o, current) else None
  }

  /** `course.enrolled_students ? course.enrolled_students : []` */
  function EnrolledTexts(p: CoursePatch): seq<string> {
    if p.enrolledStudents.Some? then p.enrolledStudents.value else []
  }

  /** The `updateFields` object: each scalar field kept only when supplied and different (the
      dates compared as instants), and the student list as a `$addToSet` entry when it shares no
      id with the stored list. */
  function CourseDelta(existing: Course, p: CoursePatch): (r: Result<CourseRepo.CourseUpdate>)
    ensures r.Err? <==> (p.enrolledStudents.Some? &&
      Disjointness(Some(Texts(p.enrolledStudents.value)), Some(ObjectIds(existing.enrolledStudents))).Err?)
    ensures r.Err? ==> r.error == Internal
    ensures r.Ok? ==> (r.value.addToSetEnrolled.Some? <==> (p.enrolledStudents.Some? &&
      AllIdTexts(p.enrolledStudents.value) &&
      forall i :: 0 <= i < |p.enrolledStudents.value| ==>
        ToId(p.enrolledStudents.value[i]) !in existing.enrolledStudents))
    ensures r.Ok? ==> CourseRepo.UpdateCastable(r.value)
    ensures r.Ok? ==> (r.value.name.Some? <==> SuppliedText(p.name) && p.name.value != existing.name)
    ensures r.Ok? ==> (r.value.professorName.Some? <==>
      SuppliedText(p.professorName) && p.professorName.value != existing.professorName)
    ensures r.Ok? ==> (r.value.limitNumberOfStudents.Some? <==>
      p.limitNumberOfStudents.Some? && p.limitNumberOfStudents.value != 0 &&
      p.limitNumberOfStudents.value != existing.limitNumberOfStudents)
    ensures r.Ok? ==> (r.value.startDate.Some? <==> p.startDate.Some? && p.startDate.value != existing.startDate)
    ensures r.Ok? ==> (r.value.endDate.Some? <==> p.endDate.Some? && p.endDate.value != existing.endDate)
    ensures r.Ok? && r.value.name.Some? ==> r.value.name == p.name
    ensures r.Ok? && r.value.professorName.Some? ==> r.value.professorName == p.professorName
    ensures r.Ok? && r.value.limitNumberOfStudents.Some? ==> r.value.limitNumberOfStudents == p.limitNumberOfStudents
    ensures r.Ok? && r.value.startDate.Some? ==> r.value.startDate == p.startDate
    ensures r.Ok? && r.value.endDate.Some? ==> r.value.endDate == p.endDate
    ensures r.Ok? && r.value.addToSetEnrolled.Some? ==> r.value.addToSetEnrolled == p.enrolledStudents
  {
    var enrolled :=
      if p.enrolledStudents.Some?
      then Disjointness(Some(Texts(p.enrolledStudents.value)), Some(ObjectIds(existing.enrolledStudents)))
      else Ok(false);
    TextsAgainstIds(EnrolledTexts(p), existing.enrolledStudents);
    if enrolled.Err? then Err(Internal)
    else Ok(CourseRepo.CourseUpdate(
      ChangedText(p.name, existing.name),
      ChangedText(p.professorName, existing.professorName),
      ChangedNumber(p.limitNumberOfStudents, existing.limitNumberOfStudents),
      Changed(p.startDate, existing.startDate),
      Changed(p.endDate, existing.endDate),
      if enrolled.value then p.enrolledStudents else None))
  }

  /** The keys of `updateFields`. The student list appears under `$addToSet`, never under
      `enrolled_students`. */
  function UpdateKeys(u: CourseRepo.CourseUpdate): (keys: set<string>)
    ensures "enrolled_students" !in keys
    ensures keys == {} <==> u == CourseRepo.CourseUpdate(None, None, None, None, None, None)
  {
    (if u.name.Some? then {"name"} else {}) +
    (if u.professorName.Some? then {"professor_name"} else {}) +
    (if u.limitNumberOfStudents.Some? then {"limit_number_of_students"} else {}) +
    (if u.startDate.Some? then {"start_date"} else {}) +
    (if u.endDate.Some? then {"end_date"} else {}) +
    (if u.addToSetEnrolled.Some? then {"$addToSet"} else {})
  }

  /** The reference meaning of a course patch: every supplied field written over the stored
      one, and a student list that shares nothing with the stored list added to it. */
  function Merge(existing: Course, p: CoursePatch): Course {
    existing.(
      name := if SuppliedText(p.name) then p.name.value else existing.name,
      professorName := if SuppliedText(p.professorName) then p.professorName.value else existing.professorName,
      limitNumberOfStudents :=
        if p.limitNumberOfStudents.Some? && p.limitNumberOfStudents.value != 0
        then p.limitNumberOfStudents.value else existing.limitNumberOfStudents,
      startDate := if p.startDate.Some? then p.startDate.value else existing.startDate,
      endDate := if p.endDate.Some? then p.endDate.value else existing.endDate,
      enrolledStudents :=
        if p.enrolledStudents.Some? && AllIdTexts(p.enrolledStudents.value) &&
           forall i :: 0 <= i < |p.enrolledStudents.value| ==>
             ToId(p.enrolledStudents.value[i]) !in existing.enrolledStudents
        then AddToSet(existing.enrolledStudents, ToIds(p.enrolledStudents.value))
        else existing.enrolledStudents)
  }

  /** Dropping unchanged fields from the delta loses nothing, and an empty delta means the patch
      changes nothing. */
  lemma DeltaAgreesWithMerge(existing: Course, p: CoursePatch)
    requires CourseDelta(existing, p).Ok?
    ensures CourseRepo.ApplyUpdate(existing, CourseDelta(existing, p).value) == Merge(existing, p)
    ensures UpdateKeys(CourseDelta(existing, p).value) == {} ==> Merge(existing, p) == existing
  {
  }

  /** `enrolled_students: []` is always a change, though it adds nothing. */
  lemma EmptyEnrolledPatchIsAChange(existing: Course, p: CoursePatch)
    requires p.enrolledStudents == Some([])
    ensures CourseDelta(existing, p).Ok?
    ensures UpdateKeys(CourseDelta(existing, p).value) != {}
    ensures CourseRepo.ApplyUpdate(existing, CourseDelta(existing, p).value).enrolledStudents == existing.enrolledStudents
  {
    TextsAgainstIds([], existing.enrolledStudents);
  }

  /** What `updateCourseById` answers and leaves behind. The course is loaded before the repeat
      check. The branch that would validate and link the students tests the key
      `enrolled_students`, which the delta never has; so student records never change here. */
  function UpdateCourseStep(db: Db, id: string, p: CoursePatch): (st: Step<Course>)
    ensures !IsIdText(id) ==> st.result == Err(BadRequest)
    ensures IsIdText(id) && ToId(id) !in CourseRepo.Active(db.courses) ==> st.result == Err(NotFound(NOT_FOUND))
    ensures IsIdText(id) && ToId(id) in CourseRepo.Active(db.courses) && HasRepeat(Texts(EnrolledTexts(p))) ==>
      st.result == Err(Duplicate)
    ensures st.db.students == db.students
    ensures st.result.Err? ==> st.db == db
    ensures st.result.Ok? ==> (IsIdText(id) && ToId(id) in CourseRepo.Active(db.courses) &&
      st.result.value == Merge(db.courses[ToId(id)], p) &&
      st.db.courses == db.courses[ToId(id) := st.result.value])
    ensures st.result == Err(NoChanges) ==> Merge(db.courses[ToId(id)], p) == db.courses[ToId(id)]
    ensures IsIdText(id) && ToId(id) in CourseRepo.Active(db.courses) && !HasRepeat(Texts(EnrolledTexts(p))) ==>
      var d := CourseDelta(db.courses[ToId(id)], p);
      (d.Err? ==> st.result == Err(Internal)) &&
      (d.Ok? ==> (st.result == Err(NoChanges) <==> UpdateKeys(d.value) == {})) &&
      (d.Ok? && UpdateKeys(d.value) != {} ==>
        st.result == CourseRepo.UpdateOutcome(db.courses, id, d.value) && st.result.Ok?)
  {
    if !IsIdText(id) then Step(Err(BadRequest), db)
    else match CourseRepo.FindByIdOutcome(db.courses, id)
      case Err(e) => Step(Err(e), db)
      case Ok(existing) =>
        if HasRepeat(Texts(EnrolledTexts(p))) then Step(Err(Duplicate), db)
        else match CourseDelta(existing, p)
          case Err(_) => Step(Err(Internal), db)
          case Ok(u) =>
            DeltaAgreesWithMerge(existing, p);
            if UpdateKeys(u) == {} then Step(Err(NoChanges), db)
            else match CourseRepo.UpdateOutcome(db.courses, id, u)
              case Err(e) => Step(Err(e), db)
              case Ok(c) => Step(Ok(c), db.(courses := db.courses[ToId(id) := c]))
  }

  /** Adding a student through the update breaks the link invariant: the course lists the
      student, the student does not list the course. */
  lemma UpdateEnrolledBreaksLinks(db: Db, id: string, p: CoursePatch, sid: string)
    requires Linked(db) && IsIdText(id) && ToId(id) in CourseRepo.Active(db.courses)
    requires IsIdText(sid) && ToId(sid) in db.students && ToId(sid) !in db.courses[ToId(id)].enrolledStudents
    requires p == CoursePatch(None, None, None, None, None, Some([sid]))
    ensures UpdateCourseStep(db, id, p).result.Ok?
    ensures !Linked(UpdateCourseStep(db, id, p).db)
  {
    var existing := db.courses[ToId(id)];
    TextsAgainstIds([sid], existing.enrolledStudents);
    assert AllIdTexts([sid]);
    assert ToIds([sid]) == [ToId(sid)];
    assert !HasRepeat(Texts([sid]));
    var db' := UpdateCourseStep(db, id, p).db;
    assert ToId(sid) in db'.courses[ToId(id)].enrolledStudents;
    assert ToId(id) !in db'.students[ToId(sid)].courses;
  }

  /* ---------- searchCourses / advanceSearchCourses ---------- */

  /** The filter `searchCourses` builds: the term against the name only. */
  function CourseSearch(term: string): (q: CourseRepo.CourseQuery)
    ensures q.clauses != []
    ensures forall c: Course :: CourseRepo.MatchesQuery(q, c) <==> MatchesIgnoringCase(c.name, term)
  {
    var q := CourseRepo.AnyOf([CourseRepo.NameRegex(term)]);
    assert forall c: Course :: MatchesIgnoringCase(c.name, term) ==> CourseRepo.MatchesClause(q.clauses[0], c);
    q
  }

  /** The filter `advanceSearchCourses` builds: one clause per supplied bound, joined by `$or`.
      An absent or empty date string is not supplied. */
  function AdvanceSearch(startDate: Option<int>, endDate: Option<int>): (q: CourseRepo.CourseQuery)
    ensures |q.clauses| == (if startDate.Some? then 1 else 0) + (if endDate.Some? then 1 else 0)
    ensures forall c: Course :: CourseRepo.MatchesQuery(q, c) <==>
      (startDate.Some? && c.startDate >= startDate.value) || (endDate.Some? && c.endDate <= endDate.value)
  {
    var q := CourseRepo.AnyOf(
      (if startDate.Some? then [CourseRepo.StartFrom(startDate.value)] else []) +
      (if endDate.Some? then [CourseRepo.EndBy(endDate.value)] else []));
    assert forall c: Course :: startDate.Some? && c.startDate >= startDate.value ==>
      CourseRepo.MatchesClause(q.clauses[0], c);
    assert forall c: Course :: endDate.Some? && c.endDate <= endDate.value ==>
      CourseRepo.MatchesClause(q.clauses[|q.clauses| - 1], c);
    q
  }

  /** With both bounds the search returns the union of the two ranges, not their intersection:
      exactly the non-deleted courses that start on or after the first bound or end on or
      before the second; and `NotFound` when there is none. */
  lemma AdvanceSearchIsUnion(courses: map<Id, Course>, from: int, until: int)
    ensures var r := CourseRepo.SearchOutcome(courses, AdvanceSearch(Some(from), Some(until)));
      var union := (set k | k in CourseRepo.Active(courses) && courses[k].startDate >= from) +
                   (set k | k in CourseRepo.Active(courses) && courses[k].endDate <= until);
      (r.Ok? ==> r.value.Keys == union) && (r.Err? <==> union == {}) &&
      (r.Err? ==> r.error == NotFound(NOT_FOUND))
  {
  }

  /** With neither bound the disjunction is empty: taking the empty `$or` to be refused by the
      database server, the search never returns a list. */
  lemma AdvanceSearchWithoutBoundsFails(courses: map<Id, Course>)
    ensures CourseRepo.SearchOutcome(courses, AdvanceSearch(None, None)) == Err(Internal)
  {
  }

  /* ---------- the service ---------- */

  class CourseService {
    const students: StudentRepo.StudentRepository
    const courses: CourseRepo.CourseRepository

    constructor (students: StudentRepo.StudentRepository, courses: CourseRepo.CourseRepository)
      ensures this.students == students && this.courses == courses
    {
      this.students := students;
      this.courses := courses;
    }

    /** Both collections as they stand. */
    function Current(): Db
      reads students, courses
    {
      Db(students.table, courses.table)
    }

    method CreateCourse(input: CourseInput, newId: Id, now: int) returns (r: Result<Course>)
      modifies courses
      ensures Step(r, Current()) == CreateCourseStep(old(Current()), input, newId, now)
    {
      var duplicated := HasDuplicates(Texts(input.enrolledStudents));
      if duplicated {
        return Err(Duplicate);
      }
      r := courses.Create(input, newId, now);
    }

    method GetCourseById(id: string) returns (r: Result<Course>)
      ensures r == GetCourseOutcome(courses.table, id)
    {
      if !IsIdText(id) {
        return Err(BadRequest);
      }
      r := courses.FindById(id);
    }

    method UpdateCourseById(id: string, p: CoursePatch) returns (r: Result<Course>)
      modifies courses
      ensures Step(r, Current()) == UpdateCourseStep(old(Current()), id, p)
    {
      if !IsIdText(id) {
        return Err(BadRequest);
      }
      var existing := courses.FindById(id);
      if existing.Err? {
        return Err(existing.error);
      }
      var duplicated := HasDuplicates(Texts(EnrolledTexts(p)));
      if duplicated {
        return Err(Duplicate);
      }
      var delta := CourseDelta(existing.value, p);
      if delta.Err? {
        return Err(Internal);
      }
      if UpdateKeys(delta.value) == {} {
        return Err(NoChanges);
      }
      r := courses.UpdateById(id, delta.value);
    }

    method DeleteCourseById(id: string) returns (r: Result<()>)
      modifies courses
      ensures Step(r, Current()) == DeleteCourseStep(old(Current()), id)
    {
      if !IsIdText(id) {
        return Err(BadRequest);
      }
      r := courses.DeleteById(id);
    }

    method SearchCourses(term: string) returns (r: Result<map<Id, Course>>)
      ensures r == CourseRepo.SearchOutcome(courses.table, CourseSearch(term))
    {
      r := courses.SearchByQuery(CourseSearch(term));
    }

    method AdvanceSearchCourses(startDate: Option<int>, endDate: Option<int>)
      returns (r: Result<map<Id, Course>>)
      ensures r == CourseRepo.SearchOutcome(courses.table, AdvanceSearch(startDate, endDate))
    {
      r := courses.SearchByQuery(AdvanceSearch(startDate, endDate));
    }

    /** `getCoursesReport`: the repository's aggregation, which does not fail. */
    method GetCoursesReport() returns (rows: map<Id, CourseRepo.CourseReport>)
      ensures rows == CourseRepo.Report(courses.table)
    {
      rows := courses.GetReport();
    }
  }
}
