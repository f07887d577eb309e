# Student and course enrollment core, modelled in Dafny

This project models the enrollment and soft-delete core of a student-management backend written in TypeScript on Express and Mongoose. The backend keeps two collections:

- `students` holds names, date of birth, gender, a phone number, the list of course ids, and an `is_deleted` flag.
- `courses` holds a name, a professor, a student limit, start and end dates, the list of enrolled student ids, and the same flag.

Two repositories (`StudentRepository`, `CourseRepository`) wrap the collections. Two services (`StudentService`, `CourseService`) add the following on top:

- identifier validation;
- duplicate checks on id lists;
- "only changed fields" update deltas;
- case-insensitive search;
- report projections;
- the two enrollment operations, `register` and `removeCourse`, which edit one document on each side.

The model is arranged as follows:

- `types.dfy` (module `Types`): identifiers, errors, documents and requests.
  - An ObjectId is its canonical 24-digit lower-case hex text.
  - `IsIdText` is what `ObjectId.isValid` and `new ObjectId(s)` accept: 24 hex digits of either case.
  - `ToId` is the cast.
  - Dates are integer instants.
  - Each failure is one of the four custom error classes. Every unexpected exception is re-wrapped as `ApiError`, modelled as `Internal`.
- `duplicator.dfy` (module `Duplicator`): the two id-array utilities.
  - Each is written as the loop it is in the source and proved against a recursive specification.
  - The meaning lemmas (`DisjointFromTrue`, `TextsAgainstIds`, …) say what the answer means.
- `student_repository.dfy` and `course_repository.dfy`: each has one pure `…Outcome` function per repository operation, stating its answer. Each also has a class with a `table: map<Id, T>` field, whose methods are proved equal to those functions and state the new table.
- `enrollment.dfy` (module `Enrollment`): the two collections together (`Db`), the link invariant `Linked`, and the three edits the services make to links: `AddStudent`, `Link`, `Unlink`. Each edit is proved to keep `Linked` and `NoDuplicateLinks`.
- `student_service.dfy` and `course_service.dfy`:
  - one `…Step` function per service operation, giving both its answer and the database it leaves behind;
  - a service class over both repositories, whose methods are proved equal to those steps;
  - lemmas relating the operations: register then remove gives the database back, removal is idempotent, the deltas agree with a reference `Merge`, and which operations keep or break the link invariant.

Where the code and its written design differ, the model follows the code:

- `createStudent` with no `courses` field fails internally. It reaches `{ $in: undefined }` and `student.courses!.length`.
- `updateStudentById` and `updateCourseById` test the keys `courses` and `enrolled_students`. The delta they build never has those keys, so the branch that validates the ids and writes back-links never runs. Course records never change in a student update, and the other way round. `UpdateCoursesBreaksLinks` and `UpdateEnrolledBreaksLinks` show that such an update breaks the link invariant.
- Changing a phone number through `updateStudentById` makes no uniqueness check of its own. When the schema's unique index is in force, the save fails and the call ends `Internal`, never `Duplicate`. The index is a parameter (`phoneIndex`), and `UpdateMakesNoPhoneCheck` covers the case without it.
- `createStudent` answers `Duplicate` only for a phone number held by a non-deleted student. With the unique index, a phone number held by a deleted student makes the save fail internally (`DeletedPhoneIsNotDuplicate`).
- `register` has no capacity check (`RegisterIgnoresCapacity`).
- `advanceSearchCourses` with both dates finds the union of the two ranges, not their intersection. With neither date the `$or` is empty. The model takes the database server to refuse an empty `$or`, so the call fails internally; "## Left out" records this as an assumption about the driver.
- `hasDuplicates` compares raw strings. Two spellings of the same id in different letter case pass it and are stored twice (`CreateCourseStoresCaseVariantsTwice`).

## Model

| member | source | states |
|---|---|---|
| Types.Status | src/errors/not-found-error.ts:6-10 | a `NotFoundError` carries the status it was raised with, 404 or 400; every error carries a 4xx or 5xx status, and only `ApiError` carries 500 |
| Types.ToId | src/database/repositories/student.repository.ts:65 | the cast of an id text gives the id whose digits are the text's digits lower-cased |
| Types.ToIdOfCanonical | src/utils/duplicator.ts:23 | an id's own text is valid and casts back to the same id |
| Types.ToIds | src/services/student.service.ts:51 | casting a list of id texts keeps its length and casts each element in place |
| Types.CaseVariants | src/utils/duplicator.ts:23 | two different texts (upper- and lower-case) denote the same id |
| Types.AddToSet | src/services/student.service.ts:149 | `$addToSet $each`: the old list is a prefix, the result holds exactly the old and the new ids, the appended part is repeat-free and shares nothing with the old list, and a repeat-free list stays repeat-free |
| Types.Without | src/services/student.service.ts:311-313 | the filter removes exactly the given id, keeps every other, leaves a list without it unchanged and keeps a list repeat-free |
| Types.WithoutCounts | src/services/student.service.ts:311-313 | the filter drops every copy of the id and keeps every other id as often as it occurred |
| Types.WithoutConcat | src/services/student.service.ts:311-313 | the filter works element by element, so the kept ids stay in order: filtering a concatenation filters each part |
| Types.WithoutAppended | src/services/student.service.ts:311-313 | filtering out an id just appended to a list that lacked it gives the list back |
| Types.EmptyTermMatchesEverything | src/services/student.service.ts:220 | a case-insensitive regex with the empty term matches every field |
| Types.Changed | src/services/student.service.ts:130-138 | a patch value enters the delta exactly when supplied and different from the stored one, unchanged; writing the kept value gives what writing the patch gives |
| Types.ChangedText | src/services/student.service.ts:122-129 | a string enters the delta exactly when it is non-empty and differs from the stored one; writing the kept value gives what writing a non-empty patch value gives |
| Duplicator.Texts | src/utils/duplicator.ts:16 | request strings as array elements, one per string, in order |
| Duplicator.ObjectIds | src/utils/duplicator.ts:16 | stored ObjectIds as array elements, one per id, in order |
| Duplicator.HasDuplicates | src/utils/duplicator.ts:3-13 | the loop answers true exactly when two positions have the same string form |
| Duplicator.HasRepeatOfTexts | src/utils/duplicator.ts:6-7 | on strings, a repeat is exactly a repeated string |
| Duplicator.IdAndItsTextRepeat | src/utils/duplicator.ts:6 | an ObjectId and its own text count as a repeat |
| Duplicator.RepeatInPrefix | src/utils/duplicator.ts:5-11 | a repeat in a part of the array is a repeat of the whole |
| Duplicator.AsObjectId | src/utils/duplicator.ts:23 | an ObjectId is kept; a string converts exactly when it is an id text |
| Duplicator.AreObjectIdArraysDisjoint | src/utils/duplicator.ts:16-33 | the nested loops with early returns answer what the recursive definition `Disjointness` answers |
| Duplicator.SomeEquals | src/utils/duplicator.ts:24-27 | the inner scan: `true` only when some element converts to x; it fails `Internal` only when some element does not convert |
| Duplicator.DisjointFrom | src/utils/duplicator.ts:22-32 | the outer loop: an empty left array gives `true`; it fails `Internal` only when some element of either array does not convert |
| Duplicator.Disjointness | src/utils/duplicator.ts:16-33 | a non-array argument gives `false`; an empty left array gives `true`; the only failure is `Internal` |
| Duplicator.SomeEqualsMeaning | src/utils/duplicator.ts:24-27 | on convertible elements, the inner scan answers exactly "some element equals x" |
| Duplicator.DisjointFromMeaning | src/utils/duplicator.ts:22-32 | on convertible arrays, the check answers exactly "no element of one equals an element of the other" |
| Duplicator.DisjointFromTrue | src/utils/duplicator.ts:22-32 | true exactly when the left array converts, the right converts unless the left is empty, and nothing is shared |
| Duplicator.NoMatchConverts | src/utils/duplicator.ts:24-27 | a scan that finds no match has converted every element |
| Duplicator.NotAnArrayIsNotDisjoint | src/utils/duplicator.ts:17-19 | a non-array argument gives false |
| Duplicator.DisjointnessSymmetric | src/utils/duplicator.ts:16-33 | on convertible arrays the answer does not depend on the order of the arguments |
| Duplicator.DisjointnessAsymmetricOnBadText | src/utils/duplicator.ts:22-25 | with an invalid text the order matters: it throws on the left, and is never looked at on the right of an empty left |
| Duplicator.IdAndItsTextNotDisjoint | src/utils/duplicator.ts:26 | an ObjectId and its own text are not disjoint, in either order |
| Duplicator.TextsAgainstIds | src/services/student.service.ts:144-150 | request texts against a stored list: true exactly when every text is valid and none denotes a stored id |
| StudentRepo.Active | src/database/repositories/student.repository.ts:64-67 | exactly the non-deleted documents, unchanged |
| StudentRepo.NewStudent | src/database/repositories/student.repository.ts:39-42 | the saved document has the input's fields, is not deleted, is stamped `now`, and has the cast course list (or `[]`) |
| StudentRepo.CreateRejected | src/database/repositories/student.repository.ts:39-48 | without the unique index the save is refused exactly when a course id does not cast or the id is taken; with it, also when any student, deleted or not, holds the phone |
| StudentRepo.CreateOutcome | src/database/repositories/student.repository.ts:28-60 | `Duplicate` exactly when a non-deleted student has the phone; success exactly when the save is not refused; success gives `NewStudent`; no other error than `Internal` |
| StudentRepo.FindByIdOutcome | src/database/repositories/student.repository.ts:62-81 | found exactly when the cast id names a non-deleted student; otherwise `NotFound(404)`, or `Internal` for a text that does not cast |
| StudentRepo.FindAllOutcome | src/database/repositories/student.repository.ts:83-103 | all non-deleted students, or `NotFound` exactly when there is none |
| StudentRepo.FindManyOutcome | src/database/repositories/student.repository.ts:185-195 | exactly the non-deleted students whose id is in the list; `Internal` exactly when a text does not cast |
| StudentRepo.FindManyCount | src/services/student.service.ts:50-59 | as many found as requested exactly when the ids are distinct and all name non-deleted documents |
| StudentRepo.ApplyUpdate | src/database/repositories/student.repository.ts:118-122 | each given field replaced, the given ids added as a set, flag and timestamp kept |
| StudentRepo.UpdateRejected | src/database/repositories/student.repository.ts:118-126 | without the unique index or a new phone, the update is refused exactly when an id does not cast; with both, also when another student holds the phone |
| StudentRepo.UpdateOutcome | src/database/repositories/student.repository.ts:105-136 | success exactly when the target is visible and the database does not refuse; success gives `ApplyUpdate`; errors are `NotFound(404)` or `Internal` |
| StudentRepo.DeleteOutcome | src/database/repositories/student.repository.ts:138-169 | success exactly when the cast id names a non-deleted student; otherwise `NotFound(404)` or `Internal` |
| StudentRepo.SoftDeleted | src/database/repositories/student.repository.ts:149-153 | the same keys; the target flagged deleted and otherwise kept; every other document unchanged |
| StudentRepo.MatchesQuery | src/services/student.service.ts:219-223 | an empty `$or` matches nothing; a single clause matches exactly when its field contains the term, ignoring case |
| StudentRepo.SearchOutcome | src/database/repositories/student.repository.ts:197-224 | exactly the non-deleted matching students; `NotFound` exactly when none matches; an empty `$or` gives `Internal` (an assumption about the driver, see "## Left out") |
| StudentRepo.Report | src/database/repositories/student.repository.ts:226-260 | one row per non-deleted student with its fields and the length of its course list |
| StudentRepo.StudentRepository.constructor | src/database/repositories/student.repository.ts:19 | the repository starts with the given collection and index setting |
| StudentRepo.StudentRepository.FindOneByQuery | src/database/repositories/student.repository.ts:171-183 | none exactly when no document matches; otherwise a matching document |
| StudentRepo.StudentRepository.Create | src/database/repositories/student.repository.ts:28-60 | answers `CreateOutcome`; the table gains the new document on success and is unchanged otherwise |
| StudentRepo.StudentRepository.FindById | src/database/repositories/student.repository.ts:62-81 | answers `FindByIdOutcome` |
| StudentRepo.StudentRepository.FindAll | src/database/repositories/student.repository.ts:83-103 | answers `FindAllOutcome` |
| StudentRepo.StudentRepository.UpdateById | src/database/repositories/student.repository.ts:105-136 | answers `UpdateOutcome`; the table changes at the target only, and only on success |
| StudentRepo.StudentRepository.DeleteById | src/database/repositories/student.repository.ts:138-169 | answers `DeleteOutcome`; the table becomes `SoftDeleted` on success |
| StudentRepo.StudentRepository.FindManyByQuery | src/database/repositories/student.repository.ts:185-195 | answers `FindManyOutcome` |
| StudentRepo.StudentRepository.SearchByQuery | src/database/repositories/student.repository.ts:197-224 | answers `SearchOutcome` |
| StudentRepo.StudentRepository.GetReport | src/database/repositories/student.repository.ts:226-260 | answers `Report` |
| StudentRepo.CreateThenFind | src/database/repositories/student.repository.ts:39-50 | a created student is found by its id, the collection grows by one, and nothing else changes |
| StudentRepo.DeletedPhoneIsNotDuplicate | src/database/repositories/student.repository.ts:30-37 | a phone held only by a deleted student is not `Duplicate`: created without the unique index, `Internal` with it |
| StudentRepo.UpdateMakesNoPhoneCheck | src/database/repositories/student.repository.ts:105-128 | without the unique index, an update can give two non-deleted students the same phone |
| StudentRepo.DeleteThenFindFails | src/database/repositories/student.repository.ts:138-169 | after a delete the record remains, flagged; find and a second delete fail `NotFound`; only it leaves the visible set |
| StudentRepo.UpdateThenFind | src/database/repositories/student.repository.ts:105-136 | after an update, find returns the updated document, and every other document is unchanged |
| StudentRepo.ReportCoversFindAll | src/database/repositories/student.repository.ts:226-242 | the report has a row exactly for each student `findAll` returns |
| CourseRepo.Active | src/database/repositories/course.repository.ts:56-59 | exactly the non-deleted courses, unchanged |
| CourseRepo.NewCourse | src/database/repositories/course.repository.ts:31-34 | the saved course has the input's fields, is not deleted, is stamped `now`, and has the cast student list |
| CourseRepo.CreateOutcome | src/database/repositories/course.repository.ts:28-52 | success exactly when every student text casts and the id is free; no check of its own; the only error is `Internal` |
| CourseRepo.FindByIdOutcome | src/database/repositories/course.repository.ts:54-73 | found exactly when the cast id names a non-deleted course; otherwise `NotFound(404)` or `Internal` |
| CourseRepo.FindAllOutcome | src/database/repositories/course.repository.ts:75-95 | all non-deleted courses, or `NotFound` exactly when there is none |
| CourseRepo.FindManyOutcome | src/database/repositories/course.repository.ts:175-185 | exactly the non-deleted courses whose id is in the list; `Internal` exactly when a text does not cast |
| CourseRepo.FindManyCount | src/services/student.service.ts:50-59 | as many courses found as requested exactly when the ids are distinct and all name non-deleted courses |
| CourseRepo.ApplyUpdate | src/database/repositories/course.repository.ts:110-114 | each given field replaced, the given student ids added as a set, flag and timestamp kept |
| CourseRepo.UpdateOutcome | src/database/repositories/course.repository.ts:97-128 | success exactly when the target is visible and the ids cast; success gives `ApplyUpdate`; errors are `NotFound(404)` or `Internal` |
| CourseRepo.DeleteOutcome | src/database/repositories/course.repository.ts:130-161 | success exactly when the cast id names a non-deleted course; otherwise `NotFound(404)` or `Internal` |
| CourseRepo.SoftDeleted | src/database/repositories/course.repository.ts:130-161 | the same keys; the target flagged deleted; every other course unchanged |
| CourseRepo.MatchesQuery | src/services/course.service.ts:224-242 | an empty `$or` matches nothing; a single clause matches exactly when that clause does |
| CourseRepo.SearchOutcome | src/database/repositories/course.repository.ts:187-214 | exactly the non-deleted matching courses; `NotFound` exactly when none matches; an empty `$or` gives `Internal` (an assumption about the driver, see "## Left out") |
| CourseRepo.Report | src/database/repositories/course.repository.ts:216-252 | one row per non-deleted course with its fields and the number of enrolled students |
| CourseRepo.CourseRepository.constructor | src/database/repositories/course.repository.ts:19 | the repository starts with the given collection |
| CourseRepo.CourseRepository.FindOneActive | src/database/repositories/course.repository.ts:163-173 | the non-deleted course with that id, or none exactly when there is no such course |
| CourseRepo.CourseRepository.Create | src/database/repositories/course.repository.ts:28-52 | answers `CreateOutcome`; the table gains the new course on success and is unchanged otherwise |
| CourseRepo.CourseRepository.FindById | src/database/repositories/course.repository.ts:54-73 | answers `FindByIdOutcome` |
| CourseRepo.CourseRepository.FindAll | src/database/repositories/course.repository.ts:75-95 | answers `FindAllOutcome` |
| CourseRepo.CourseRepository.UpdateById | src/database/repositories/course.repository.ts:97-128 | answers `UpdateOutcome`; the table changes at the target only, and only on success |
| CourseRepo.CourseRepository.DeleteById | src/database/repositories/course.repository.ts:130-161 | answers `DeleteOutcome`; the table becomes `SoftDeleted` on success |
| CourseRepo.CourseRepository.FindManyByQuery | src/database/repositories/course.repository.ts:175-185 | answers `FindManyOutcome` |
| CourseRepo.CourseRepository.SearchByQuery | src/database/repositories/course.repository.ts:187-214 | answers `SearchOutcome` |
| CourseRepo.CourseRepository.GetReport | src/database/repositories/course.repository.ts:216-252 | answers `Report` |
| CourseRepo.CreateThenFind | src/database/repositories/course.repository.ts:31-42 | a created course is found by its id, keeps as many students as given, and nothing else changes |
| CourseRepo.CreateKeepsRepeatedStudent | src/database/repositories/course.repository.ts:31-36 | two texts for the same student are both stored, so the list holds a repeat |
| CourseRepo.DeleteThenFindFails | src/database/repositories/course.repository.ts:130-161 | after a delete the course remains, flagged; find and a second delete fail `NotFound`; only it leaves the visible set |
| CourseRepo.UpdateThenFind | src/database/repositories/course.repository.ts:97-128 | after an update, find returns the updated course, and every other course is unchanged |
| CourseRepo.ReportCoversFindAll | src/database/repositories/course.repository.ts:216-234 | the report has a row exactly for each course `findAll` returns |
| Enrollment.UnknownStudentIsUnlisted | src/services/student.service.ts:259-265 | under the link invariant, no course lists an id that no student has |
| Enrollment.UnknownCourseIsUnlisted | src/services/student.service.ts:259-265 | under the link invariant, no student lists an id that no course has |
| Enrollment.SameListsKeepLinked | src/database/repositories/student.repository.ts:149-153 | an edit that keeps every document and every list, such as a soft delete, keeps the link invariant |
| Enrollment.SameListsKeepNoDuplicates | src/database/repositories/student.repository.ts:149-153 | such an edit keeps every list repeat-free |
| Enrollment.PushEach | src/services/student.service.ts:65-68 | `updateMany $push`: the selected courses get the id appended unconditionally, and the rest are unchanged |
| Enrollment.AddStudent | src/services/student.service.ts:62-68 | the new student is stored under its id; each existing course it lists gets its id appended; every other course is unchanged |
| Enrollment.Link | src/services/student.service.ts:267-272 | the student's list gains the course at its end and the course's list gains the student at its end; both documents keep every other field; every other document is unchanged |
| Enrollment.Unlink | src/services/student.service.ts:311-319 | each of the two lists becomes its `Without` filter of the other's id, so every other id stays in order and neither list holds the other's id; both documents keep every other field; every other document is unchanged |
| Enrollment.AddStudentKeepsLinks | src/services/student.service.ts:62-68 | storing a new student with distinct existing courses and pushing its id keeps the database linked and repeat-free |
| Enrollment.LinkKeepsLinks | src/services/student.service.ts:267-272 | linking two documents that do not hold each other keeps the database linked and repeat-free |
| Enrollment.UnlinkKeepsLinks | src/services/student.service.ts:311-319 | unlinking keeps the database linked and repeat-free, and then neither side lists the other |
| Enrollment.DropCourseTwice | src/services/student.service.ts:311-314 | filtering a course out of a student's list twice gives what filtering once gives |
| Enrollment.DropStudentTwice | src/services/student.service.ts:316-319 | filtering a student out of a course's list twice gives what filtering once gives |
| Enrollment.UnlinkIdempotent | src/services/student.service.ts:311-319 | unlinking twice is unlinking once |
| Enrollment.AddThenDropCourse | src/services/student.service.ts:267-314 | appending a course a student lacked, then filtering it out, gives the students back |
| Enrollment.AddThenDropStudent | src/services/student.service.ts:268-319 | appending a student a course lacked, then filtering it out, gives the courses back |
| Enrollment.UnlinkUndoesLink | src/services/student.service.ts:267-272 | unlinking a fresh link gives the database back |
| StudentSvc.CreateStudentStep | src/services/student.service.ts:38-79 | in order: repeated texts give `Duplicate`; absent or invalid ids give `Internal`; repeated or unavailable courses give `NotFound`; then the repository's answer. Success stores the student with the cast courses, and each course lists it; failure changes nothing |
| StudentSvc.CreateStudentKeepsLinks | src/services/student.service.ts:61-68 | a successful `createStudent` leaves a linked, repeat-free database linked and repeat-free |
| StudentSvc.GetStudentOutcome | src/services/student.service.ts:81-96 | `BadRequest` for a malformed id; found exactly when it names a non-deleted student; otherwise `NotFound(404)`, never `Internal` |
| StudentSvc.DeleteStudentStep | src/services/student.service.ts:201-214 | `BadRequest` for a malformed id; success exactly when the student is visible, and then only its flag changes; failure changes nothing |
| StudentSvc.DeleteStudentKeepsLinks | src/services/student.service.ts:201-214 | a soft delete keeps the link invariant, and the deleted student's courses still list it |
| StudentSvc.StudentSearch | src/services/student.service.ts:216-224 | the filter has three clauses and matches exactly when either name or the phone contains the term, ignoring case |
| StudentSvc.EmptySearchFindsAll | src/services/student.service.ts:216-228 | the empty term finds every non-deleted student |
| StudentSvc.StudentDelta | src/services/student.service.ts:122-151 | `Internal` exactly when the disjointness check throws; each scalar field is in the delta exactly when supplied (a string non-empty) and different from the stored value, and then holds the patch value; the course list is kept exactly when all its texts are valid and none is already held |
| StudentSvc.UpdateKeys | src/services/student.service.ts:152-158 | the key `courses` never appears; no keys exactly when the delta is empty |
| StudentSvc.DeltaAgreesWithMerge | src/services/student.service.ts:122-156 | applying the delta equals writing the whole patch, and an empty delta means the patch changes nothing |
| StudentSvc.EmptyCoursesPatchIsAChange | src/services/student.service.ts:144-150 | `courses: []` always counts as a change but adds no course |
| StudentSvc.OverlappingCoursesDropped | src/services/student.service.ts:144-150 | a course list overlapping the stored one is dropped whole, new ids included |
| StudentSvc.UpdateStudentStep | src/services/student.service.ts:108-199 | `BadRequest`, then `NotFound`; for a visible student, a throwing disjointness check gives `Internal`, `NoChanges` comes exactly when the delta has no keys, and otherwise the answer is the repository update, which succeeds exactly when the save is not refused; success stores and returns `Merge` of the patch at the target only; courses never change |
| StudentSvc.UpdateCoursesBreaksLinks | src/services/student.service.ts:144-184 | adding a course through the update leaves the student listing a course that does not list it |
| StudentSvc.RegisterStep | src/services/student.service.ts:236-286 | `BadRequest`, then `NotFound` for either side; success exactly when neither lists the other, otherwise `Duplicate`; success links both and returns the updated student; failure changes nothing |
| StudentSvc.RegisterKeepsLinks | src/services/student.service.ts:267-272 | a successful `register` leaves a linked, repeat-free database linked and repeat-free |
| StudentSvc.RegisterTwiceIsDuplicate | src/services/student.service.ts:259-265 | a second `register` of the same pair fails `Duplicate` and changes nothing |
| StudentSvc.RegisterIgnoresCapacity | src/services/student.service.ts:259-272 | a course at its limit still accepts a student, and then exceeds its limit |
| StudentSvc.RemoveCourseStep | src/services/student.service.ts:288-333 | `BadRequest`, then `NotFound`; success exactly when both are visible, whether or not linked; success unlinks both and returns the updated student; failure changes nothing |
| StudentSvc.RemoveCourseKeepsLinks | src/services/student.service.ts:311-319 | a successful `removeCourse` leaves a linked, repeat-free database linked and repeat-free, and then neither lists the other |
| StudentSvc.RemoveCourseIdempotent | src/services/student.service.ts:311-319 | a second `removeCourse` of the same pair succeeds and changes nothing |
| StudentSvc.RemoveUndoesRegister | src/services/student.service.ts:267-319 | `removeCourse` after `register` gives back the original database and student |
| StudentSvc.StudentService.constructor | src/services/student.service.ts:27-29 | the service holds the given repositories |
| StudentSvc.StudentService.CreateStudent | src/services/student.service.ts:38-79 | answers and leaves the database as `CreateStudentStep` says |
| StudentSvc.StudentService.GetStudentById | src/services/student.service.ts:81-96 | answers `GetStudentOutcome` |
| StudentSvc.StudentService.UpdateStudentById | src/services/student.service.ts:108-199 | answers and leaves the database as `UpdateStudentStep` says |
| StudentSvc.StudentService.DeleteStudentById | src/services/student.service.ts:201-214 | answers and leaves the database as `DeleteStudentStep` says |
| StudentSvc.StudentService.SearchStudents | src/services/student.service.ts:216-234 | answers the repository search with the `StudentSearch` filter |
| StudentSvc.StudentService.Register | src/services/student.service.ts:236-286 | answers and leaves the database as `RegisterStep` says |
| StudentSvc.StudentService.RemoveCourse | src/services/student.service.ts:288-333 | answers and leaves the database as `RemoveCourseStep` says |
| CourseSvc.CreateCourseStep | src/services/course.service.ts:41-60 | repeated texts give `Duplicate`; success exactly when all texts are valid and the id is free; success stores `NewCourse`; students never change; failure changes nothing |
| CourseSvc.CreateCourseBreaksLinks | src/services/course.service.ts:41-60 | a course created with students breaks the link invariant |
| CourseSvc.CreateCourseStoresCaseVariantsTwice | src/services/course.service.ts:43-49 | the same student written in two cases passes the repeat check and is stored twice |
| CourseSvc.GetCourseOutcome | src/services/course.service.ts:62-77 | `BadRequest` for a malformed id; found exactly when it names a non-deleted course; otherwise `NotFound(404)` |
| CourseSvc.DeleteCourseStep | src/services/course.service.ts:190-203 | `BadRequest` for a malformed id; success exactly when the course is visible, and then only its flag changes; failure changes nothing |
| CourseSvc.CourseDelta | src/services/course.service.ts:110-139 | `Internal` exactly when the disjointness check throws; each scalar field is in the delta exactly when supplied (a string non-empty, the limit non-zero) and different from the stored value, and then holds the patch value; the student list is kept exactly when all its texts are valid and none is already enrolled |
| CourseSvc.ChangedNumber | src/services/course.service.ts:117-121 | a limit enters the delta exactly when it is non-zero and differs from the stored one; writing the kept value gives what writing a non-zero limit gives |
| CourseSvc.UpdateKeys | src/services/course.service.ts:140-146 | the key `enrolled_students` never appears; no keys exactly when the delta is empty |
| CourseSvc.DeltaAgreesWithMerge | src/services/course.service.ts:110-144 | applying the delta equals writing the whole patch (a zero limit not supplied), and an empty delta means no change |
| CourseSvc.EmptyEnrolledPatchIsAChange | src/services/course.service.ts:132-138 | `enrolled_students: []` always counts as a change but adds no student |
| CourseSvc.UpdateCourseStep | src/services/course.service.ts:89-188 | `BadRequest`, then `NotFound`, then `Duplicate` for repeated texts; otherwise a throwing disjointness check gives `Internal`, `NoChanges` comes exactly when the delta has no keys, and any other delta succeeds; success stores and returns `Merge` at the target only; students never change |
| CourseSvc.UpdateEnrolledBreaksLinks | src/services/course.service.ts:132-172 | adding a student through the update leaves the course listing a student that does not list it |
| CourseSvc.CourseSearch | src/services/course.service.ts:205-211 | the filter matches exactly when the name contains the term, ignoring case |
| CourseSvc.AdvanceSearch | src/services/course.service.ts:220-240 | one clause per supplied bound; matches exactly when the course starts on or after the start bound or ends on or before the end bound |
| CourseSvc.AdvanceSearchIsUnion | src/services/course.service.ts:220-244 | with both bounds the result is the union of the two ranges, and `NotFound` exactly when that union is empty |
| CourseSvc.AdvanceSearchWithoutBoundsFails | src/services/course.service.ts:224-242 | with neither bound the search fails `Internal`, under the driver assumption in "## Left out" |
| CourseSvc.CourseService.constructor | src/services/course.service.ts:30-32 | the service holds the given repositories |
| CourseSvc.CourseService.CreateCourse | src/services/course.service.ts:41-60 | answers and leaves the database as `CreateCourseStep` says |
| CourseSvc.CourseService.GetCourseById | src/services/course.service.ts:62-77 | answers `GetCourseOutcome` |
| CourseSvc.CourseService.UpdateCourseById | src/services/course.service.ts:89-188 | answers and leaves the database as `UpdateCourseStep` says |
| CourseSvc.CourseService.DeleteCourseById | src/services/course.service.ts:190-203 | answers and leaves the database as `DeleteCourseStep` says |
| CourseSvc.CourseService.SearchCourses | src/services/course.service.ts:205-218 | answers the repository search with the `CourseSearch` filter |
| CourseSvc.CourseService.AdvanceSearchCourses | src/services/course.service.ts:220-249 | answers the repository search with the `AdvanceSearch` filter |
| CourseSvc.CourseService.GetCoursesReport | src/services/course.service.ts:251-260 | answers the repository's `Report` |

## Left out

- HTTP routing, controllers, zod request validation, the error-handling middleware and the logger are not part of this model. Requests enter as already-typed values (`StudentInput`, `StudentPatch`, `CourseInput`, `CoursePatch`).
- Date parsing: dates are integer instants. An invalid date string (which makes `toISOString` throw) is not represented. JavaScript treats an empty date string as false, so an absent or empty date string is `None`: in an advanced search, and in a patch's `date_of_birth`, `start_date` and `end_date`.
- `$regex`: the search term is read as a literal substring, lower-cased character by character (ASCII). Regular-expression metacharacters and Unicode case folding are not modelled.
- ObjectIds built from 12-byte strings: only 24-hex-digit texts are valid ids here.
- Order of results: query results are maps keyed by id, so the order in which MongoDB returns documents is not modelled.
- Concurrency and atomicity: each service step is one atomic transition. The interleaving of the separate `save` and `updateMany` calls with other requests, and a crash between them, are not modelled.
- Documents are values in a map. Mongoose documents edited in place and then saved are modelled as the updated value written back to the table.
- The new document's `_id` and the creation timestamp are parameters (`newId`, `now`). The clock and the id generator are not modelled.
- The unique index on `phone_number` is a parameter (`phoneIndex`), because whether the index exists depends on the deployment.
- `getAllStudents`, `getAllCourses` and `getStudentsReport` pass the repository's answer through unchanged. They are covered by `FindAll` and `GetReport` and have no service method of their own.
- Singleton construction (`getInstance`) is not modelled: the services receive their repositories.
- A database or driver failure that is not a refusal stated above (network, timeout) is not modelled. It would end as `Internal`.
- StudentRepo.SearchOutcome, CourseRepo.SearchOutcome and CourseSvc.AdvanceSearchWithoutBoundsFails assume how the driver treats `{ $or: [] }`. The model assumes Mongoose passes it to the server unchanged and the server refuses it ("$and/$or/$nor must be a nonempty array"), so the call ends `Internal`. Query casting is not part of this model. If the installed Mongoose version drops an empty `$or` instead, an advanced search with neither date returns every non-deleted course, or `NotFound` when there is none.
