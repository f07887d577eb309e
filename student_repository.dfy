/** The students collection and its repository: CRUD with soft-delete visibility, the
    one id query the services use, text search and the report projection. */
module StudentRepo {
  import opened Types

  /* ---------- visibility ---------- */

  /** The non-deleted documents: the only ones a read, a search or a write can see. */
  function Active(t: map<Id, Student>): (a: map<Id, Student>)
    ensures forall k :: k in a <==> k in t && !t[k].isDeleted
    ensures forall k :: k in a ==> a[k] == t[k]
  {
    map k | k in t && !t[k].isDeleted :: t[k]
  }

  /** Some document (deleted or not) other than `except` carries this phone number. */
  predicate PhoneHeldByAny(t: map<Id, Student>, phone: string, except: Option<Id>) {
    exists k :: k in t && (except.None? || k != except.value) && t[k].phoneNumber == phone
  }

  /** Some non-deleted document carries this phone number. */
  predicate PhoneHeldByActive(t: map<Id, Student>, phone: string) {
    exists k :: k in t && !t[k].isDeleted && t[k].phoneNumber == phone
  }

  /* ---------- create ---------- */

  predicate CoursesCastable(input: StudentInput) {
    input.courses.None? || AllIdTexts(input.courses.value)
  }

  /** The document `create` saves: the given fields, `is_deleted = false`, `create_at = now`
      and, when `courses` is absent, the schema default `[]`. */
  function NewStudent(input: StudentInput, now: int): (s: Student)
    requires CoursesCastable(input)
    ensures !s.isDeleted && s.createAt == now
    ensures s.fullNameEn == input.fullNameEn && s.fullNameKm == input.fullNameKm
    ensures s.dateOfBirth == input.dateOfBirth && s.gender == input.gender
    ensures s.phoneNumber == input.phoneNumber
    ensures s.courses == if input.courses.Some? then ToIds(input.courses.value) else []
  {
    Student(input.fullNameEn, input.fullNameKm, input.dateOfBirth, input.gender,
      input.phoneNumber, if input.courses.Some? then ToIds(input.courses.value) else [],
      false, now)
  }

  /** The save inserting `newId` is refused by the database: a course id that does not cast, an
      `_id` already taken, or (when the schema's unique phone index is in force) a phone number
      that any stored document, deleted or not, already has. */
  predicate CreateRejected(t: map<Id, Student>, input: StudentInput, newId: Id, phoneIndex: bool): (b: bool)
    ensures !phoneIndex ==> (b <==> !CoursesCastable(input) || newId in t)
    ensures phoneIndex && PhoneHeldByAny(t, input.phoneNumber, None) ==> b
  {
    !CoursesCastable(input) || newId in t || (phoneIndex && PhoneHeldByAny(t, input.phoneNumber, None))
  }

  /** What `create` answers. */
  function CreateOutcome(t: map<Id, Student>, input: StudentInput, newId: Id, now: int,
                         phoneIndex: bool): (r: Result<Student>)
    ensures r == Err(Duplicate) <==> PhoneHeldByActive(t, input.phoneNumber)
    ensures r.Ok? <==> !PhoneHeldByActive(t, input.phoneNumber) && !CreateRejected(t, input, newId, phoneIndex)
    ensures r.Ok? ==> CoursesCastable(input) && r.value == NewStudent(input, now)
    ensures r.Err? ==> r.error == Duplicate || r.error == Internal
  {
    if PhoneHeldByActive(t, input.phoneNumber) then Err(Duplicate)
    else if CreateRejected(t, input, newId, phoneIndex) then Err(Internal)
    else Ok(NewStudent(input, now))
  }

  /* ---------- reads ---------- */

  /** What `findById` answers; `Internal` when `new ObjectId(id)` throws. */
  function FindByIdOutcome(t: map<Id, Student>, id: string): (r: Result<Student>)
    ensures !IsIdText(id) ==> r == Err(Internal)
    ensures IsIdText(id) ==> (r.Ok? <==> ToId(id) in Active(t))
    ensures IsIdText(id) && r.Err? ==> r.error == NotFound(NOT_FOUND)
    ensures r.Ok? ==> IsIdText(id) && r.value == t[ToId(id)] && !r.value.isDeleted
  {
    if !IsIdText(id) then Err(Internal)
    else if ToId(id) in t && !t[ToId(id)].isDeleted then Ok(t[ToId(id)])
    else Err(NotFound(NOT_FOUND))
  }

  /** What `findAll` answers: every non-deleted document, or `NotFound` when there is none. */
  function FindAllOutcome(t: map<Id, Student>): (r: Result<map<Id, Student>>)
    ensures r.Ok? <==> Active(t) != map[]
    ensures r.Ok? ==> r.value == Active(t)
    ensures r.Err? ==> r.error == NotFound(NOT_FOUND)
  {
    var a := Active(t);
    if a == map[] then Err(NotFound(NOT_FOUND)) else Ok(a)
  }

  /** What `findManyByQuery({ _id: { $in: ids }, is_deleted: false })` answers: the
      non-deleted documents whose id is among `ids`; `Internal` when an id does not cast. */
  function FindManyOutcome(t: map<Id, Student>, ids: seq<string>): (r: Result<map<Id, Student>>)
    ensures r.Ok? <==> AllIdTexts(ids)
    ensures r.Err? ==> r.error == Internal
    ensures r.Ok? ==> forall k :: k in r.value <==> k in Active(t) && k in ToIds(ids)
    ensures r.Ok? ==> forall k :: k in r.value ==> r.value[k] == t[k]
  {
    if !AllIdTexts(ids) then Err(Internal)
    else Ok(map k | k in t && !t[k].isDeleted && k in ToIds(ids) :: t[k])
  }

  /** The found documents number as many as the ids exactly when the ids denote distinct
      documents that all exist and are not deleted. */
  lemma FindManyCount(t: map<Id, Student>, ids: seq<string>)
    requires AllIdTexts(ids)
    ensures |FindManyOutcome(t, ids).value| == |ids| <==>
      NoDup(ToIds(ids)) && forall x :: x in ToIds(ids) ==> x in Active(t)
  {
    SelectionCount(FindManyOutcome(t, ids).value, Active(t).Keys, ToIds(ids));
  }

  /* ---------- update ---------- */

  /** The update document the service hands to `updateById`: the fields to `$set` and the course
      ids to add with `$addToSet … $each`. */
  datatype StudentUpdate = StudentUpdate(
    fullNameEn: Option<string>,
    fullNameKm: Option<string>,
    gender: Option<Gender>,
    dateOfBirth: Option<int>,
    phoneNumber: Option<string>,
    addToSetCourses: Option<seq<string>>)

  predicate UpdateCastable(u: StudentUpdate) {
    u.addToSetCourses.None? || AllIdTexts(u.addToSetCourses.value)
  }

  /** The document after the update: every given field replaced, the given course ids added to
      the set; nothing else changes. */
  function ApplyUpdate(s: Student, u: StudentUpdate): (r: Student)
    requires UpdateCastable(u)
    ensures r.isDeleted == s.isDeleted && r.createAt == s.createAt
    ensures r.fullNameEn == Pick(u.fullNameEn, s.fullNameEn)
    ensures r.fullNameKm == Pick(u.fullNameKm, s.fullNameKm)
    ensures r.gender == Pick(u.gender, s.gender)
    ensures r.dateOfBirth == Pick(u.dateOfBirth, s.dateOfBirth)
    ensures r.phoneNumber == Pick(u.phoneNumber, s.phoneNumber)
    ensures u.addToSetCourses.None? ==> r.courses == s.courses
    ensures u.addToSetCourses.Some? ==> r.courses == AddToSet(s.courses, ToIds(u.addToSetCourses.value))
  {
    s.(fullNameEn := Pick(u.fullNameEn, s.fullNameEn),
       fullNameKm := Pick(u.fullNameKm, s.fullNameKm),
       gender := Pick(u.gender, s.gender),
       dateOfBirth := Pick(u.dateOfBirth, s.dateOfBirth),
       phoneNumber := Pick(u.phoneNumber, s.phoneNumber),
       courses := if u.addToSetCourses.Some? then AddToSet(s.courses, ToIds(u.addToSetCourses.value)) else s.courses)
  }

  /** The database refuses `findByIdAndUpdate`: an added course id does not cast, or the unique
      phone index (when in force) already holds the new number for another document. */
  predicate UpdateRejected(t: map<Id, Student>, key: Id, u: StudentUpdate, phoneIndex: bool): (b: bool)
    ensures !phoneIndex || u.phoneNumber.None? ==> (b <==> !UpdateCastable(u))
    ensures phoneIndex && u.phoneNumber.Some? && PhoneHeldByAny(t, u.phoneNumber.value, Some(key)) ==> b
  {
    !UpdateCastable(u) ||
    (phoneIndex && u.phoneNumber.Some? && PhoneHeldByAny(t, u.phoneNumber.value, Some(key)))
  }

  /** What `updateById` answers. There is no phone-uniqueness check of its own. */
  function UpdateOutcome(t: map<Id, Student>, id: string, u: StudentUpdate, phoneIndex: bool)
    : (r: Result<Student>)
    ensures !IsIdText(id) ==> r == Err(Internal)
    ensures IsIdText(id) && ToId(id) !in Active(t) ==> r == Err(NotFound(NOT_FOUND))
    ensures r.Ok? <==> IsIdText(id) && ToId(id) in Active(t) && !UpdateRejected(t, ToId(id), u, phoneIndex)
    ensures r.Ok? ==> UpdateCastable(u) && r.value == ApplyUpdate(t[ToId(id)], u)
    ensures r.Err? ==> r.error == Internal || r.error == NotFound(NOT_FOUND)
  {
    if !IsIdText(id) then Err(Internal)
    else
      var key := ToId(id);
      if key !in t || t[key].isDeleted then Err(NotFound(NOT_FOUND))
      else if UpdateRejected(t, key, u, phoneIndex) then Err(Internal)
      else Ok(ApplyUpdate(t[key], u))
  }

  /* ---------- delete ---------- */

  /** What `deleteById` answers; on success the only change is `is_deleted := true`. */
  function DeleteOutcome(t: map<Id, Student>, id: string): (r: Result<()>)
    ensures !IsIdText(id) ==> r == Err(Internal)
    ensures IsIdText(id) ==> (r.Ok? <==> ToId(id) in Active(t))
    ensures IsIdText(id) && r.Err? ==> r.error == NotFound(NOT_FOUND)
  {
    if !IsIdText(id) then Err(Internal)
    else if ToId(id) in t && !t[ToId(id)].isDeleted then Ok(())
    else Err(NotFound(NOT_FOUND))
  }

  /** The table after a successful delete: the document kept, flagged deleted. */
  function SoftDeleted(t: map<Id, Student>, key: Id): (t': map<Id, Student>)
    requires key in t
    ensures t'.Keys == t.Keys
    ensures t'[key] == t[key].(isDeleted := true)
    ensures forall k :: k in t && k != key ==> t'[k] == t[k]
  {
    t[key := t[key].(isDeleted := true)]
  }

  /* ---------- search ---------- */

  datatype StudentField = FullNameEn | FullNameKm | PhoneNumber

  function FieldText(s: Student, f: StudentField): string {
    match f
    case FullNameEn => s.fullNameEn
    case FullNameKm => s.fullNameKm
    case PhoneNumber => s.phoneNumber
  }

  /** `{ field: { $regex: term, $options: "i" } }` */
  datatype StudentClause = Regex(field: StudentField, term: string)

  /** `{ $or: clauses }` */
  datatype StudentQuery = AnyOf(clauses: seq<StudentClause>)

  predicate MatchesQuery(q: StudentQuery, s: Student): (b: bool)
    ensures q.clauses == [] ==> !b
    ensures |q.clauses| == 1 ==> (b <==> MatchesIgnoringCase(FieldText(s, q.clauses[0].field), q.clauses[0].term))
  {
    exists i :: 0 <= i < |q.clauses| && MatchesIgnoringCase(FieldText(s, q.clauses[i].field), q.clauses[i].term)
  }

  /** What `searchByQuery` answers: the non-deleted documents the query matches, `NotFound` when
      there is none. An empty `$or` is taken to reach the database server, which refuses it, so
      the call ends as `Internal`; what the driver does with it is outside this model. */
  function SearchOutcome(t: map<Id, Student>, q: StudentQuery): (r: Result<map<Id, Student>>)
    ensures q.clauses == [] ==> r == Err(Internal)
    ensures r.Ok? ==> r.value != map[]
    ensures r.Ok? ==> forall k :: k in r.value <==> k in Active(t) && MatchesQuery(q, t[k])
    ensures r.Ok? ==> forall k :: k in r.value ==> r.value[k] == t[k]
    ensures q.clauses != [] && r.Err? ==>
      r.error == NotFound(NOT_FOUND) && forall k :: k in Active(t) ==> !MatchesQuery(q, t[k])
  {
    if q.clauses == [] then Err(Internal)
    else
      var m := map k | k in t && !t[k].isDeleted && MatchesQuery(q, t[k]) :: t[k];
      assert forall k :: k in t && !t[k].isDeleted && MatchesQuery(q, t[k]) ==> k in m;
      if m == map[] then Err(NotFound(NOT_FOUND)) else Ok(m)
  }

  /* ---------- report ---------- */

  /** One report row: the identifying fields and `number_of_courses`. */
  datatype StudentReport = StudentReport(
    fullNameEn: string,
    fullNameKm: string,
    dateOfBirth: int,
    gender: Gender,
    phoneNumber: string,
    numberOfCourses: nat)

  /** The `$match` / `$project` aggregation: one row per non-deleted document, keyed by `_id`. */
  function Report(t: map<Id, Student>): (rows: map<Id, StudentReport>)
    ensures rows.Keys == Active(t).Keys
    ensures forall k :: k in rows ==> rows[k].numberOfCourses == |t[k].courses|
    ensures forall k :: k in rows ==>
      rows[k].phoneNumber == t[k].phoneNumber &&
      rows[k].fullNameEn == t[k].fullNameEn && rows[k].fullNameKm == t[k].fullNameKm &&
      rows[k].dateOfBirth == t[k].dateOfBirth && rows[k].gender == t[k].gender
  {
    map k | k in t && !t[k].isDeleted ::
      StudentReport(t[k].fullNameEn, t[k].fullNameKm, t[k].dateOfBirth, t[k].gender,
        t[k].phoneNumber, |t[k].courses|)
  }

  /* ---------- the repository ---------- */

  /** The two `findOneByQuery` lookups the repository makes, both restricted to
      non-deleted documents. */
  datatype StudentLookup = ActiveWithPhone(phone: string) | ActiveWithId(id: Id)

  predicate MatchesLookup(q: StudentLookup, k: Id, s: Student) {
    !s.isDeleted &&
    match q
    case ActiveWithPhone(p) => s.phoneNumber == p
    case ActiveWithId(id) => k == id
  }

  class StudentRepository {
    /** The students collection. */
    var table: map<Id, Student>
    /** Whether the schema's `unique: true` index on `phone_number` is in force. */
    const phoneIndex: bool

    constructor (initial: map<Id, Student>, phoneIndex: bool)
      ensures table == initial && this.phoneIndex == phoneIndex
    {
      table := initial;
      this.phoneIndex := phoneIndex;
    }

    /** `findOneByQuery`: some document matching the lookup, if any. */
    method FindOneByQuery(q: StudentLookup) returns (r: Option<Student>)
      ensures r.None? <==> forall k :: k in table ==> !MatchesLookup(q, k, table[k])
      ensures r.Some? ==> exists k :: k in table && MatchesLookup(q, k, table[k]) && table[k] == r.value
    {
      if k :| k in table && MatchesLookup(q, k, table[k]) {
        r := Some(table[k]);
      } else {
        r := None;
      }
    }

    /** `create`: refuses a phone number a non-deleted student already has, then saves. */
    method Create(input: StudentInput, newId: Id, now: int) returns (r: Result<Student>)
      modifies this
      ensures r == CreateOutcome(old(table), input, newId, now, phoneIndex)
      ensures table == if r.Ok? then old(table)[newId := r.value] else old(table)
    {
      var existing := FindOneByQuery(ActiveWithPhone(input.phoneNumber));
      if existing.Some? {
        return Err(Duplicate);
      }
      assert !PhoneHeldByActive(table, input.phoneNumber) by {
        forall k | k in table && !table[k].isDeleted ensures table[k].phoneNumber != input.phoneNumber {
          assert !MatchesLookup(ActiveWithPhone(input.phoneNumber), k, table[k]);
        }
      }
      if CreateRejected(table, input, newId, phoneIndex) {
        return Err(Internal);
      }
      var saved := NewStudent(input, now);
      table := table[newId := saved];
      return Ok(saved);
    }

    method FindById(id: string) returns (r: Result<Student>)
      ensures r == FindByIdOutcome(table, id)
    {
      if !IsIdText(id) {
        return Err(Internal);
      }
      var key := ToId(id);
      var student := FindOneByQuery(ActiveWithId(key));
      if student.None? {
        assert !(key in table && !table[key].isDeleted) by {
          if key in table { assert !MatchesLookup(ActiveWithId(key), key, table[key]); }
        }
        return Err(NotFound(NOT_FOUND));
      }
      return Ok(student.value);
    }

    method FindAll() returns (r: Result<map<Id, Student>>)
      ensures r == FindAllOutcome(table)
    {
      var students := map k | k in table && !table[k].isDeleted :: table[k];
      if |students| == 0 {
        assert students == map[];
        return Err(NotFound(NOT_FOUND));
      }
      return Ok(students);
    }

    /** `updateById`: checks the target is visible, then merge-applies the update to it. */
    method UpdateById(id: string, u: StudentUpdate) returns (r: Result<Student>)
      modifies this
      ensures r == UpdateOutcome(old(table), id, u, phoneIndex)
      ensures table == if r.Ok? then old(table)[ToId(id) := r.value] else old(table)
    {
      if !IsIdText(id) {
        return Err(Internal);
      }
      var key := ToId(id);
      var existing := FindOneByQuery(ActiveWithId(key));
      if existing.None? {
        assert !(key in table && !table[key].isDeleted) by {
          if key in table { assert !MatchesLookup(ActiveWithId(key), key, table[key]); }
        }
        return Err(NotFound(NOT_FOUND));
      }
      if UpdateRejected(table, key, u, phoneIndex) {
        return Err(Internal);
      }
      var updated := ApplyUpdate(table[key], u);
      table := table[key := updated];
      return Ok(updated);
    }

    /** `deleteById`: checks the target is visible, then only flips `is_deleted`. */
    method DeleteById(id: string) returns (r: Result<()>)
      modifies this
      ensures r == DeleteOutcome(old(table), id)
      ensures table == if r.Ok? then SoftDeleted(old(table), ToId(id)) else old(table)
    {
      if !IsIdText(id) {
        return Err(Internal);
      }
      var key := ToId(id);
      var existing := FindOneByQuery(ActiveWithId(key));
      if existing.None? {
        assert !(key in table && !table[key].isDeleted) by {
          if key in table { assert !MatchesLookup(ActiveWithId(key), key, table[key]); }
        }
        return Err(NotFound(NOT_FOUND));
      }
      table := table[key := table[key].(isDeleted := true)];
      return Ok(());
    }

    method FindManyByQuery(ids: seq<string>) returns (r: Result<map<Id, Student>>)
      ensures r == FindManyOutcome(table, ids)
    {
      if !AllIdTexts(ids) {
        return Err(Internal);
      }
      var found := map k | k in table && !table[k].isDeleted && k in ToIds(ids) :: table[k];
      return Ok(found);
    }

    method SearchByQuery(q: StudentQuery) returns (r: Result<map<Id, Student>>)
      ensures r == SearchOutcome(table, q)
    {
      if |q.clauses| == 0 {
        return Err(Internal);
      }
      var students := map k | k in table && !table[k].isDeleted && MatchesQuery(q, table[k]) :: table[k];
      if |students| == 0 {
        assert students == map[];
        return Err(NotFound(NOT_FOUND));
      }
      return Ok(students);
    }

    method GetReport() returns (rows: map<Id, StudentReport>)
      ensures rows == Report(table)
    {
      rows := map k | k in table && !table[k].isDeleted ::
        StudentReport(table[k].fullNameEn, table[k].fullNameKm, table[k].dateOfBirth,
          table[k].gender, table[k].phoneNumber, |table[k].courses|);
    }
  }

  /* ---------- properties relating several operations ---------- */

  /** A created student is found by its id, and every other document is as before. */
  lemma CreateThenFind(t: map<Id, Student>, input: StudentInput, newId: Id, now: int, phoneIndex: bool)
    requires CreateOutcome(t, input, newId, now, phoneIndex).Ok?
    ensures var s := CreateOutcome(t, input, newId, now, phoneIndex).value;
      var t' := t[newId := s];
      FindByIdOutcome(t', newId) == Ok(s) && |t'| == |t| + 1 &&
      forall k :: k in t ==> k in t' && t'[k] == t[k]
  {
    ToIdOfCanonical(newId);
  }

  /** A deleted phone number does not count as taken: `create` never answers `Duplicate` for it;
      without the unique index the student is created, with it the save fails internally. */
  lemma DeletedPhoneIsNotDuplicate(t: map<Id, Student>, input: StudentInput, newId: Id, now: int,
                                   phoneIndex: bool, holder: Id)
    requires holder in t && t[holder].isDeleted && t[holder].phoneNumber == input.phoneNumber
    requires forall k :: k in t && k != holder ==> t[k].phoneNumber != input.phoneNumber
    requires CoursesCastable(input) && newId !in t
    ensures !phoneIndex ==> CreateOutcome(t, input, newId, now, phoneIndex).Ok?
    ensures phoneIndex ==> CreateOutcome(t, input, newId, now, phoneIndex) == Err(Internal)
  {
    assert !PhoneHeldByActive(t, input.phoneNumber);
    if phoneIndex {
      assert PhoneHeldByAny(t, input.phoneNumber, None);
    }
  }

  /** `updateById` never answers `Duplicate`: without the unique index, two non-deleted students
      can end up with the same phone number. */
  lemma UpdateMakesNoPhoneCheck(t: map<Id, Student>, id: string, u: StudentUpdate, other: Id)
    requires IsIdText(id) && ToId(id) in Active(t) && UpdateCastable(u)
    requires other in Active(t) && other != ToId(id)
    requires u.phoneNumber == Some(t[other].phoneNumber)
    ensures var r := UpdateOutcome(t, id, u, false);
      r.Ok? && r.value.phoneNumber == t[other].phoneNumber &&
      var t' := t[ToId(id) := r.value];
      PhoneHeldByActive(t', t[other].phoneNumber) && t'[other].phoneNumber == t'[ToId(id)].phoneNumber
  {
    var t' := t[ToId(id) := UpdateOutcome(t, id, u, false).value];
    assert other in t' && !t'[other].isDeleted;
  }

  /** After a successful delete the record still exists, flagged deleted; it can no longer be
      found, and a second delete fails `NotFound`. */
  lemma DeleteThenFindFails(t: map<Id, Student>, id: string)
    requires DeleteOutcome(t, id).Ok?
    ensures var t' := SoftDeleted(t, ToId(id));
      ToId(id) in t' && t'[ToId(id)].isDeleted &&
      FindByIdOutcome(t', id) == Err(NotFound(NOT_FOUND)) &&
      DeleteOutcome(t', id) == Err(NotFound(NOT_FOUND)) &&
      Active(t').Keys == Active(t).Keys - {ToId(id)}
  {
  }

  /** The update reaches its one target: `findById` then sees the merged document, and every
      other document is as before. */
  lemma UpdateThenFind(t: map<Id, Student>, id: string, u: StudentUpdate, phoneIndex: bool)
    requires UpdateOutcome(t, id, u, phoneIndex).Ok?
    ensures var s := UpdateOutcome(t, id, u, phoneIndex).value;
      var t' := t[ToId(id) := s];
      FindByIdOutcome(t', id) == Ok(s) && t'.Keys == t.Keys &&
      forall k :: k in t && k != ToId(id) ==> t'[k] == t[k]
  {
  }

  /** The report has a row exactly for each student `findAll` returns. */
  lemma ReportCoversFindAll(t: map<Id, Student>)
    ensures FindAllOutcome(t).Ok? ==> Report(t).Keys == FindAllOutcome(t).value.Keys
    ensures FindAllOutcome(t).Err? ==> Report(t) == map[]
  {
    if FindAllOutcome(t).Err? {
      assert Report(t).Keys == {};
    }
  }
}
