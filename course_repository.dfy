/** The courses collection and its repository: CRUD with soft-delete visibility, the id query
    the services use, search by name or date bounds, and the report projection. */
module CourseRepo {
  import opened Types

  /* ---------- visibility ---------- */

  /** The non-deleted documents: the only ones a read, a search or a write can see. */
  function Active(t: map<Id, Course>): (a: map<Id, Course>)
    ensures forall k :: k in a <==> k in t && !t[k].isDeleted
    ensures forall k :: k in a ==> a[k] == t[k]
  {
    map k | k in t && !t[k].isDeleted :: t[k]
  }

  /* ---------- create ---------- */

  /** The document `create` saves: the given fields, `is_deleted = false`, `create_at = now`. */
  function NewCourse(input: CourseInput, now: int): (c: Course)
    requires AllIdTexts(input.enrolledStudents)
    ensures !c.isDeleted && c.createAt == now
    ensures c.name == input.name && c.professorName == input.professorName
    ensures c.limitNumberOfStudents == input.limitNumberOfStudents
    ensures c.startDate == input.startDate && c.endDate == input.endDate
    ensures c.enrolledStudents == ToIds(input.enrolledStudents)
  {
    Course(input.name, input.professorName, input.limitNumberOfStudents, input.startDate,
      input.endDate, ToIds(input.enrolledStudents), false, now)
  }

  /** What `create` answers. It checks nothing itself: the save fails (and `create` answers
      `Internal`) only when a student id does not cast or `newId` is already taken. */
  function CreateOutcome(t: map<Id, Course>, input: CourseInput, newId: Id, now: int): (r: Result<Course>)
    ensures r.Ok? <==> AllIdTexts(input.enrolledStudents) && newId !in t
    ensures r.Ok? ==> r.value == NewCourse(input, now)
    ensures r.Err? ==> r.error == Internal
  {
    if !AllIdTexts(input.enrolledStudents) || newId in t then Err(Internal)
    else Ok(NewCourse(input, now))
  }

  /* ---------- reads ---------- */

  /** What `findById` answers; `Internal` when `new ObjectId(id)` throws. */
  function FindByIdOutcome(t: map<Id, Course>, id: string): (r: Result<Course>)
    ensures !IsIdText(id) ==> r == Err(Internal)
    ensures IsIdText(id) ==> (r.Ok? <==> ToId(id) in Active(t))
    ensures IsIdText(id) && r.Err? ==> r.error == NotFound(NOT_FOUND)
    ensures r.Ok? ==> IsIdText(id) && r.value == t[ToId(id)] && !r.value.isDeleted
  {
    if !IsIdText(id) then Err(Internal)
    else if ToId(id) in t && !t[ToId(id)].isDeleted then Ok(t[ToId(id)])
    else Err(NotFound(NOT_FOUND))
  }

  /** What `findAll` answers: every non-deleted course, or `NotFound` when there is none. */
  function FindAllOutcome(t: map<Id, Course>): (r: Result<map<Id, Course>>)
    ensures r.Ok? <==> Active(t) != map[]
    ensures r.Ok? ==> r.value == Active(t)
    ensures r.Err? ==> r.error == NotFound(NOT_FOUND)
  {
    var a := Active(t);
    if a == map[] then Err(NotFound(NOT_FOUND)) else Ok(a)
  }

  /** What `findManyByQuery({ _id: { $in: ids }, is_deleted: false })` answers: the non-deleted
      courses whose id is among `ids`; `Internal` when an id does not cast. */
  function FindManyOutcome(t: map<Id, Course>, ids: seq<string>): (r: Result<map<Id, Course>>)
    ensures r.Ok? <==> AllIdTexts(ids)
    ensures r.Err? ==> r.error == Internal
    ensures r.Ok? ==> forall k :: k in r.value <==> k in Active(t) && k in ToIds(ids)
    ensures r.Ok? ==> forall k :: k in r.value ==> r.value[k] == t[k]
  {
    if !AllIdTexts(ids) then Err(Internal)
    else Ok(map k | k in t && !t[k].isDeleted && k in ToIds(ids) :: t[k])
  }

  /** The found documents number as many as the ids exactly when the ids denote distinct
      documents that all exist and are not deleted. */
  lemma FindManyCount(t: map<Id, Course>, ids: seq<string>)
    requires AllIdTexts(ids)
    ensures |FindManyOutcome(t, ids).value| == |ids| <==>
      NoDup(ToIds(ids)) && forall x :: x in ToIds(ids) ==> x in Active(t)
  {
    SelectionCount(FindManyOutcome(t, ids).value, Active(t).Keys, ToIds(ids));
  }

  /* ---------- update ---------- */

  /** The update document the service hands to `updateById`: the fields to `$set` and the
      student ids to add with `$addToSet … $each`. */
  datatype CourseUpdate = CourseUpdate(
    name: Option<string>,
    professorName: Option<string>,
    limitNumberOfStudents: Option<int>,
    startDate: Option<int>,
    endDate: Option<int>,
    addToSetEnrolled: Option<seq<string>>)

  predicate UpdateCastable(u: CourseUpdate) {
    u.addToSetEnrolled.None? || AllIdTexts(u.addToSetEnrolled.value)
  }

  /** The document after the update: every given field replaced, the given student ids added to
      the set; nothing else changes. */
  function ApplyUpdate(c: Course, u: CourseUpdate): (r: Course)
    requires UpdateCastable(u)
    ensures r.isDeleted == c.isDeleted && r.createAt == c.createAt
    ensures r.name == Pick(u.name, c.name)
    ensures r.professorName == Pick(u.professorName, c.professorName)
    ensures r.limitNumberOfStudents == Pick(u.limitNumberOfStudents, c.limitNumberOfStudents)
    ensures r.startDate == Pick(u.startDate, c.startDate)
    ensures r.endDate == Pick(u.endDate, c.endDate)
    ensures u.addToSetEnrolled.None? ==> r.enrolledStudents == c.enrolledStudents
    ensures u.addToSetEnrolled.Some? ==>
      r.enrolledStudents == AddToSet(c.enrolledStudents, ToIds(u.addToSetEnrolled.value))
  {
    c.(name := Pick(u.name, c.name),
       professorName := Pick(u.professorName, c.professorName),
       limitNumberOfStudents := Pick(u.limitNumberOfStudents, c.limitNumberOfStudents),
       startDate := Pick(u.startDate, c.startDate),
       endDate := Pick(u.endDate, c.endDate),
       enrolledStudents := if u.addToSetEnrolled.Some?
         then AddToSet(c.enrolledStudents, ToIds(u.addToSetEnrolled.value)) else c.enrolledStudents)
  }

  /** What `updateById` answers. */
  function UpdateOutcome(t: map<Id, Course>, id: string, u: CourseUpdate): (r: Result<Course>)
    ensures !IsIdText(id) ==> r == Err(Internal)
    ensures IsIdText(id) && ToId(id) !in Active(t) ==> r == Err(NotFound(NOT_FOUND))
    ensures r.Ok? <==> IsIdText(id) && ToId(id) in Active(t) && UpdateCastable(u)
    ensures r.Ok? ==> r.value == ApplyUpdate(t[ToId(id)], u)
    ensures r.Err? ==> r.error == Internal || r.error == NotFound(NOT_FOUND)
  {
    if !IsIdText(id) then Err(Internal)
    else
      var key := ToId(id);
      if key !in t || t[key].isDeleted then Err(NotFound(NOT_FOUND))
      else if !UpdateCastable(u) then Err(Internal)
      else Ok(ApplyUpdate(t[key], u))
  }

  /* ---------- delete ---------- */

  /** What `deleteById` answers; on success the only change is `is_deleted := true`. */
  function DeleteOutcome(t: map<Id, Course>, id: string): (r: Result<()>)
    ensures !IsIdText(id) ==> r == Err(Internal)
    ensures IsIdText(id) ==> (r.Ok? <==> ToId(id) in Active(t))
    ensures IsIdText(id) && r.Err? ==> r.error == NotFound(NOT_FOUND)
  {
    if !IsIdText(id) then Err(Internal)
    else if ToId(id) in t && !t[ToId(id)].isDeleted then Ok(())
    else Err(NotFound(NOT_FOUND))
  }

  /** The table after a successful delete: the document kept, flagged deleted. */
  function SoftDeleted(t: map<Id, Course>, key: Id): (t': map<Id, Course>)
    requires key in t
    ensures t'.Keys == t.Keys
    ensures t'[key] == t[key].(isDeleted := true)
    ensures forall k :: k in t && k != key ==> t'[k] == t[k]
  {
    t[key := t[key].(isDeleted := true)]
  }

  /* ---------- search ---------- */

  /** One clause of a course search: `{ name: { $regex: term, $options: "i" } }`,
      `{ start_date: { $gte: d } }` or `{ end_date: { $lte: d } }`. */
  datatype CourseClause = NameRegex(term: string) | StartFrom(date: int) | EndBy(date: int)

  /** `{ $or: clauses }` */
  datatype CourseQuery = AnyOf(clauses: seq<CourseClause>)

  predicate MatchesClause(cl: CourseClause, c: Course) {
    match cl
    case NameRegex(term) => MatchesIgnoringCase(c.name, term)
    case StartFrom(d) => c.startDate >= d
    case EndBy(d) => c.endDate <= d
  }

  predicate MatchesQuery(q: CourseQuery, c: Course): (b: bool)
    ensures q.clauses == [] ==> !b
    ensures |q.clauses| == 1 ==> (b <==> MatchesClause(q.clauses[0], c))
  {
    exists i :: 0 <= i < |q.clauses| && MatchesClause(q.clauses[i], c)
  }

  /** What `searchByQuery` answers: the non-deleted courses the query matches, `NotFound` when
      there is none. An empty `$or` is taken to reach the database server, which refuses it, so
      the call ends as `Internal`; what the driver does with it is outside this model. */
  function SearchOutcome(t: map<Id, Course>, q: CourseQuery): (r: Result<map<Id, Course>>)
    ensures q.clauses == [] ==> r == Err(Internal)
    ensures r.Ok? ==> r.value != map[]
    ensures r.Ok? ==> forall k :: k in r.value <==> k in Active(t) && MatchesQuery(q, t[k])
    ensures r.Ok? ==> forall k :: k in r.value ==> r.value[k] == t[k]
    ensures q.clauses != [] && r.Err? ==>
      r.error == NotFound(NOT_FOUND) && forall k :: k in Active(t) ==> !MatchesQuery(q, t[k])
  {
    if q.clauses == [] then Err(Internal)
    else
      var m := map k | k in t && !t[k].isDeleted && MatchesQuery(q, t[k]) :: t[k];
      assert forall k :: k in t && !t[k].isDeleted && MatchesQuery(q, t[k]) ==> k in m;
      if m == map[] then Err(NotFound(NOT_FOUND)) else Ok(m)
  }

  /* ---------- report ---------- */

  /** One report row: the identifying fields and `number_of_registered_students`. */
  datatype CourseReport = CourseReport(
    name: string,
    professorName: string,
    startDate: int,
    endDate: int,
    limitNumberOfStudents: int,
    numberOfRegisteredStudents: nat)

  /** The `$match` / `$project` aggregation: one row per non-deleted course, keyed by `_id`. */
  function Report(t: map<Id, Course>): (rows: map<Id, CourseReport>)
    ensures rows.Keys == Active(t).Keys
    ensures forall k :: k in rows ==> rows[k].numberOfRegisteredStudents == |t[k].enrolledStudents|
    ensures forall k :: k in rows ==>
      rows[k].name == t[k].name && rows[k].professorName == t[k].professorName &&
      rows[k].startDate == t[k].startDate && rows[k].endDate == t[k].endDate &&
      rows[k].limitNumberOfStudents == t[k].limitNumberOfStudents
  {
    map k | k in t && !t[k].isDeleted ::
      CourseReport(t[k].name, t[k].professorName, t[k].startDate, t[k].endDate,
        t[k].limitNumberOfStudents, |t[k].enrolledStudents|)
  }

  /* ---------- the repository ---------- */

  class CourseRepository {
    /** The courses collection. */
    var table: map<Id, Course>

    constructor (initial: map<Id, Course>)
      ensures table == initial
    {
      table := initial;
    }

    /** `findOneByQuery({ _id: id, is_deleted: false })`. */
    method FindOneActive(id: Id) returns (r: Option<Course>)
      ensures r.None? <==> id !in Active(table)
      ensures r.Some? ==> r.value == table[id]
    {
      if id in table && !table[id].isDeleted {
        r := Some(table[id]);
      } else {
        r := None;
      }
    }

    /** `create`: saves the course as given. */
    method Create(input: CourseInput, newId: Id, now: int) returns (r: Result<Course>)
      modifies this
      ensures r == CreateOutcome(old(table), input, newId, now)
      ensures table == if r.Ok? then old(table)[newId := r.value] else old(table)
    {
      if !AllIdTexts(input.enrolledStudents) || newId in table {
        return Err(Internal);
      }
      var saved := NewCourse(input, now);
      table := table[newId := saved];
      return Ok(saved);
    }

    method FindById(id: string) returns (r: Result<Course>)
      ensures r == FindByIdOutcome(table, id)
    {
      if !IsIdText(id) {
        return Err(Internal);
      }
      var course := FindOneActive(ToId(id));
      if course.None? {
        return Err(NotFound(NOT_FOUND));
      }
      return Ok(course.value);
    }

    method FindAll() returns (r: Result<map<Id, Course>>)
      ensures r == FindAllOutcome(table)
    {
      var courses := map k | k in table && !table[k].isDeleted :: table[k];
      if |courses| == 0 {
        assert courses == map[];
        return Err(NotFound(NOT_FOUND));
      }
      return Ok(courses);
    }

    /** `updateById`: checks the target is visible, then merge-applies the update to it. */
    method UpdateById(id: string, u: CourseUpdate) returns (r: Result<Course>)
      modifies this
      ensures r == UpdateOutcome(old(table), id, u)
      ensures table == if r.Ok? then old(table)[ToId(id) := r.value] else old(table)
    {
      if !IsIdText(id) {
        return Err(Internal);
      }
      var key := ToId(id);
      var existing := FindOneActive(key);
      if existing.None? {
        return Err(NotFound(NOT_FOUND));
      }
      if !UpdateCastable(u) {
        return Err(Internal);
      }
      var updated := ApplyUpdate(existing.value, u);
      table := table[key := updated];
      return Ok(updated);
    }

    /** `deleteById`: checks the target is visible, then only flips `is_deleted`. */
    method DeleteById(id: string) returns (r: Result<()>)
      modifies this
      ensures r == DeleteOutcome(old(table), id)
      ensures table == if r.Ok? then SoftDeleted(old(table), ToId(id)) else old(table)
    {
      if !IsIdText(id) {
        return Err(Internal);
      }
      var key := ToId(id);
      var existing := FindOneActive(key);
      if existing.None? {
        return Err(NotFound(NOT_FOUND));
      }
      table := table[key := existing.value.(isDeleted := true)];
      return Ok(());
    }

    method FindManyByQuery(ids: seq<string>) returns (r: Result<map<Id, Course>>)
      ensures r == FindManyOutcome(table, ids)
    {
      if !AllIdTexts(ids) {
        return Err(Internal);
      }
      var found := map k | k in table && !table[k].isDeleted && k in ToIds(ids) :: table[k];
      return Ok(found);
    }

    method SearchByQuery(q: CourseQuery) returns (r: Result<map<Id, Course>>)
      ensures r == SearchOutcome(table, q)
    {
      if |q.clauses| == 0 {
        return Err(Internal);
      }
      var courses := map k | k in table && !table[k].isDeleted && MatchesQuery(q, table[k]) :: table[k];
      if |courses| == 0 {
        assert courses == map[];
        return Err(NotFound(NOT_FOUND));
      }
      return Ok(courses);
    }

    method GetReport() returns (rows: map<Id, CourseReport>)
      ensures rows == Report(table)
    {
      rows := map k | k in table && !table[k].isDeleted ::
        CourseReport(table[k].name, table[k].professorName, table[k].startDate,
          table[k].endDate, table[k].limitNumberOfStudents, |table[k].enrolledStudents|);
    }
  }

  /* ---------- properties relating several operations ---------- */

  /** A created course is found by its id, holds the given student ids (repeats included, since
      nothing is checked), and every other document is as before. */
  lemma CreateThenFind(t: map<Id, Course>, input: CourseInput, newId: Id, now: int)
    requires CreateOutcome(t, input, newId, now).Ok?
    ensures var c := CreateOutcome(t, input, newId, now).value;
      var t' := t[newId := c];
      FindByIdOutcome(t', newId) == Ok(c) && |t'| == |t| + 1 &&
      |c.enrolledStudents| == |input.enrolledStudents| &&
      forall k :: k in t ==> k in t' && t'[k] == t[k]
  {
    ToIdOfCanonical(newId);
  }

  /** `create` accepts the same student twice, for instance as two texts that differ only in
      case: the stored list then holds a repeat. */
  lemma CreateKeepsRepeatedStudent(t: map<Id, Course>, input: CourseInput, newId: Id, now: int,
                                   s1: string, s2: string)
    requires newId !in t
    requires IsIdText(s1) && IsIdText(s2) && ToId(s1) == ToId(s2)
    requires input.enrolledStudents == [s1, s2]
    ensures var r := CreateOutcome(t, input, newId, now);
      r.Ok? && |r.value.enrolledStudents| == 2 && !NoDup(r.value.enrolledStudents)
  {
    assert AllIdTexts(input.enrolledStudents) by {
      assert input.enrolledStudents[0] == s1 && input.enrolledStudents[1] == s2;
    }
    var ids := ToIds(input.enrolledStudents);
    assert ids[0] == ids[1];
  }

  /** After a successful delete the record still exists, flagged deleted; it can no longer be
      found, and a second delete fails `NotFound`. */
  lemma DeleteThenFindFails(t: map<Id, Course>, id: string)
    requires DeleteOutcome(t, id).Ok?
    ensures var t' := SoftDeleted(t, ToId(id));
      ToId(id) in t' && t'[ToId(id)].isDeleted &&
      FindByIdOutcome(t', id) == Err(NotFound(NOT_FOUND)) &&
      DeleteOutcome(t', id) == Err(NotFound(NOT_FOUND)) &&
      Active(t').Keys == Active(t).Keys - {ToId(id)}
  {
  }

  /** The update reaches its one target: `findById` then sees the updated document, and every
      other document is as before. */
  lemma UpdateThenFind(t: map<Id, Course>, id: string, u: CourseUpdate)
    requires UpdateOutcome(t, id, u).Ok?
    ensures var c := UpdateOutcome(t, id, u).value;
      var t' := t[ToId(id) := c];
      FindByIdOutcome(t', id) == Ok(c) && t'.Keys == t.Keys &&
      forall k :: k in t && k != ToId(id) ==> t'[k] == t[k]
  {
  }

  /** The report has a row exactly for each course `findAll` returns. */
  lemma ReportCoversFindAll(t: map<Id, Course>)
    ensures FindAllOutcome(t).Ok? ==> Report(t).Keys == FindAllOutcome(t).value.Keys
    ensures FindAllOutcome(t).Err? ==> Report(t) == map[]
  {
    if FindAllOutcome(t).Err? {
      assert Report(t).Keys == {};
    }
  }
}
