/**
 * The course registry and the issuance workflow
 * (src/course/course-contract.ts): course existence, create, read,
 * shallow-merge update, delete, enrolment, disenrolment, and
 * `emitCertificate`, which writes a certificate and then the student's record.
 */
module CourseContract {
  import opened Wrappers
  import opened Records
  import opened Ledger
  import opened Roster
  import UserContract
  import CertificateContract

  /** `courseExists`: a record of any kind is stored under the key. */
  function CourseExists(stub: Stub, courseId: string): (r: bool)
    reads stub
    ensures r <==> courseId in stub.state
  {
    courseId in stub.state
  }

  /**
   * `createCourse`: refuses an id in use, then a missing instructor;
   * otherwise stores the course as given under its id.
   */
  method CreateCourse(stub: Stub, course: Course) returns (r: Result<()>)
    modifies stub
    ensures var s := old(stub.state);
            course.id in s ==> r == Err(AlreadyExists(TheCourse, course.id)) && stub.state == s
    ensures var s := old(stub.state);
            course.id !in s && course.instructor !in s ==>
              r == Err(DoesNotExist(TheUser, course.instructor)) && stub.state == s
    ensures var s := old(stub.state);
            course.id !in s && course.instructor in s ==>
              r == Ok(()) && stub.state == s[course.id := CourseRecord(course)]
    ensures Consistent(old(stub.state)) ==> Consistent(stub.state)
  {
    if CourseExists(stub, course.id) {
      return Err(AlreadyExists(TheCourse, course.id));
    }
    if !UserContract.UserExists(stub, course.instructor) {
      return Err(DoesNotExist(TheUser, course.instructor));
    }
    ghost var before := stub.state;
    stub.PutState(course.id, CourseRecord(course));
    if Consistent(before) {
      PutKeepsConsistent(before, CourseRecord(course));
    }
    r := Ok(());
  }

  /** `readCourse`: the record stored under the key, of whatever kind, unchecked. */
  function ReadCourse(stub: Stub, courseId: string): (r: Result<Entity>)
    reads stub
    ensures r.Ok? <==> courseId in stub.state
    ensures r.Ok? ==> r.value == stub.state[courseId]
    ensures r.Err? ==> r.error == DoesNotExist(TheCourse, courseId)
  {
    if !CourseExists(stub, courseId) then Err(DoesNotExist(TheCourse, courseId))
    else Ok(stub.state[courseId])
  }

  /** The argument of `updateCourse`: an id and whichever other fields the caller supplies. */
  datatype CoursePatch = CoursePatch(
    id: string,
    name: Option<string>,
    duration: Option<int>,
    instructor: Option<string>,
    students: Option<seq<string>>)

  /** A patch supplying every field of `course`. */
  function PatchOf(course: Course): CoursePatch
  {
    CoursePatch(course.id, Some(course.name), Some(course.duration), Some(course.instructor), Some(course.students))
  }

  /** `{ ...existing, ...patch }`: the supplied fields overlay the existing course. */
  function Merge(existing: Course, patch: CoursePatch): Course
  {
    Course(
      patch.id,
      if patch.name.Some? then patch.name.value else existing.name,
      if patch.duration.Some? then patch.duration.value else existing.duration,
      if patch.instructor.Some? then patch.instructor.value else existing.instructor,
      if patch.students.Some? then patch.students.value else existing.students)
  }

  /** A patch supplying every field replaces the existing course entirely. */
  lemma MergeCompletePatch(existing: Course, course: Course)
    ensures Merge(existing, PatchOf(course)) == course
  {
  }

  /** A field the patch leaves out keeps its existing value; a supplied one takes the patch's. */
  lemma MergeKeepsOmitted(existing: Course, patch: CoursePatch)
    ensures var m := Merge(existing, patch);
            && m.id == patch.id
            && (patch.name.None? ==> m.name == existing.name)
            && (patch.duration.None? ==> m.duration == existing.duration)
            && (patch.instructor.None? ==> m.instructor == existing.instructor)
            && (patch.students.None? ==> m.students == existing.students)
            && (patch.name.Some? ==> m.name == patch.name.value)
            && (patch.duration.Some? ==> m.duration == patch.duration.value)
            && (patch.instructor.Some? ==> m.instructor == patch.instructor.value)
            && (patch.students.Some? ==> m.students == patch.students.value)
  {
  }

  /**
   * `updateCourse`: refuses a missing id; otherwise stores the existing
   * course overlaid with the supplied fields.  A record of another kind
   * under the id is refused (see README).
   */
  method UpdateCourse(stub: Stub, patch: CoursePatch) returns (r: Result<()>)
    modifies stub
    ensures var s := old(stub.state);
            patch.id !in s ==> r == Err(DoesNotExist(TheCourse, patch.id)) && stub.state == s
    ensures var s := old(stub.state);
            patch.id in s && !s[patch.id].CourseRecord? ==> r == Err(Malformed(patch.id)) && stub.state == s
    ensures var s := old(stub.state);
            HoldsCourse(s, patch.id) ==>
              r == Ok(()) && stub.state == s[patch.id := CourseRecord(Merge(s[patch.id].course, patch))]
    ensures Consistent(old(stub.state)) ==> Consistent(stub.state)
  {
    if !CourseExists(stub, patch.id) {
      return Err(DoesNotExist(TheCourse, patch.id));
    }
    var existing := ReadCourse(stub, patch.id).value;
    if !existing.CourseRecord? {
      return Err(Malformed(patch.id));
    }
    var merged := Merge(existing.course, patch);
    ghost var before := stub.state;
    stub.PutState(patch.id, CourseRecord(merged));
    if Consistent(before) {
      PutKeepsConsistent(before, CourseRecord(merged));
    }
    r := Ok(());
  }

  /** `deleteCourse`: removes the key, whatever kind of record it holds. */
  method DeleteCourse(stub: Stub, courseId: string) returns (r: Result<()>)
    modifies stub
    ensures courseId !in old(stub.state) ==>
              r == Err(DoesNotExist(TheCourse, courseId)) && stub.state == old(stub.state)
    ensures courseId in old(stub.state) ==>
              r == Ok(()) && stub.state == old(stub.state) - {courseId}
    ensures !CourseExists(stub, courseId)
    ensures Consistent(old(stub.state)) && !HoldsCertificate(old(stub.state), courseId) ==> Consistent(stub.state)
  {
    if !CourseExists(stub, courseId) {
      return Err(DoesNotExist(TheCourse, courseId));
    }
    ghost var before := stub.state;
    stub.DeleteState(courseId);
    if Consistent(before) && !HoldsCertificate(before, courseId) {
      DeleteKeepsConsistent(before, courseId);
    }
    r := Ok(());
  }

  /**
   * `enrollStudent`: refuses, in this order, a missing course, a missing
   * student and a student already enrolled; otherwise appends the student.
   */
  method EnrollStudent(stub: Stub, courseId: string, studentId: string) returns (r: Result<()>)
    modifies stub
    ensures var s := old(stub.state);
            courseId !in s ==> r == Err(DoesNotExist(TheCourse, courseId)) && stub.state == s
    ensures var s := old(stub.state);
            courseId in s && studentId !in s ==> r == Err(DoesNotExist(TheUser, studentId)) && stub.state == s
    ensures var s := old(stub.state);
            courseId in s && studentId in s && !s[courseId].CourseRecord? ==>
              r == Err(Malformed(courseId)) && stub.state == s
    ensures var s := old(stub.state);
            HoldsCourse(s, courseId) && studentId in s && studentId in s[courseId].course.students ==>
              r == Err(AlreadyEnrolled(studentId)) && stub.state == s
    ensures var s := old(stub.state);
            HoldsCourse(s, courseId) && studentId in s && studentId !in s[courseId].course.students ==>
              var course := s[courseId].course;
              r == Ok(()) && stub.state == s[courseId := CourseRecord(course.(students := course.students + [studentId]))]
    ensures var s := old(stub.state);
            r.Ok? ==> HoldsCourse(stub.state, courseId)
                      && multiset(stub.state[courseId].course.students)[studentId] == 1
                      && (NoDuplicates(s[courseId].course.students) ==> NoDuplicates(stub.state[courseId].course.students))
    ensures Consistent(old(stub.state)) ==> Consistent(stub.state)
  {
    if !CourseExists(stub, courseId) {
      return Err(DoesNotExist(TheCourse, courseId));
    }
    if !UserContract.UserExists(stub, studentId) {
      return Err(DoesNotExist(TheUser, studentId));
    }
    var existing := ReadCourse(stub, courseId).value;
    if !existing.CourseRecord? {
      return Err(Malformed(courseId));
    }
    var course := existing.course;
    if IndexOf(course.students, studentId).Some? {
      return Err(AlreadyEnrolled(studentId));
    }
    var enrolled := course.(students := course.students + [studentId]);
    ghost var before := stub.state;
    stub.PutState(courseId, CourseRecord(enrolled));
    assert multiset(enrolled.students)[studentId] == 1 by {
      assert multiset(course.students)[studentId] == 0;
    }
    if NoDuplicates(course.students) {
      AppendNew(course.students, studentId);
    }
    if Consistent(before) {
      assert enrolled.id == courseId;
      PutKeepsConsistent(before, CourseRecord(enrolled));
    }
    r := Ok(());
  }

  /**
   * `disenrollStudent`: refuses a missing course and a student not on its
   * list (an empty list included); otherwise removes the named student.
   */
  method DisenrollStudent(stub: Stub, courseId: string, studentId: string) returns (r: Result<()>)
    modifies stub
    ensures var s := old(stub.state);
            courseId !in s ==> r == Err(DoesNotExist(TheCourse, courseId)) && stub.state == s
    ensures var s := old(stub.state);
            courseId in s && !s[courseId].CourseRecord? ==> r == Err(Malformed(courseId)) && stub.state == s
    ensures var s := old(stub.state);
            HoldsCourse(s, courseId) && studentId !in s[courseId].course.students ==>
              r == Err(NotEnrolled(studentId, courseId)) && stub.state == s
    ensures var s := old(stub.state);
            HoldsCourse(s, courseId) && studentId in s[courseId].course.students ==>
              var course := s[courseId].course;
              r == Ok(()) && stub.state == s[courseId := CourseRecord(course.(students := RemoveStudent(course.students, studentId)))]
    ensures var s := old(stub.state);
            r.Ok? && NoDuplicates(s[courseId].course.students) ==>
              var after := stub.state[courseId].course.students;
              && studentId !in after
              && (forall x | x != studentId :: x in after <==> x in s[courseId].course.students)
              && NoDuplicates(after)
    ensures Consistent(old(stub.state)) ==> Consistent(stub.state)
  {
    if !CourseExists(stub, courseId) {
      return Err(DoesNotExist(TheCourse, courseId));
    }
    var existing := ReadCourse(stub, courseId).value;
    if !existing.CourseRecord? {
      return Err(Malformed(courseId));
    }
    var course := existing.course;
    var position := IndexOf(course.students, studentId);
    if position.None? {
      return Err(NotEnrolled(studentId, courseId));
    }
    var remaining := course.(students := RemoveStudent(course.students, studentId));
    ghost var before := stub.state;
    stub.PutState(courseId, CourseRecord(remaining));
    if NoDuplicates(course.students) {
      RemoveFromDistinct(course.students, studentId);
    }
    if Consistent(before) {
      assert remaining.id == courseId;
      PutKeepsConsistent(before, CourseRecord(remaining));
    }
    r := Ok(());
  }

  /** The checks of `emitCertificate` that precede building the certificate all pass. */
  predicate Eligible(s: State, courseId: string, studentId: string)
  {
    && HoldsCourse(s, courseId)
    && s[courseId].course.instructor in s
    && HoldsUser(s, studentId)
    && studentId in s[courseId].course.students
  }

  /** The certificate `emitCertificate` builds for an eligible student. */
  function IssuedCertificate(course: Course, studentId: string, newId: string, now: int): (c: Certificate)
  {
    Certificate(newId, studentId, now, course.duration, course.id, course.instructor)
  }

  /**
   * `emitCertificate`.  `newId` and `now` stand for `uuidv4()` and
   * `new Date()`.  Checks, in order: the course, the kind of record under
   * it, its instructor, the student, the enrolment and the kind of record
   * under the student; then writes the certificate (through
   * `createCertificate`) and only after it the student's record with the new
   * id appended (through `updateUser`).  The existence test inside
   * `updateUser` reads the committed ledger, which does not include the
   * certificate this transaction has just written; when it fails the thrown
   * error aborts the transaction and nothing is committed.
   * `afterCertificate` is the ledger as the first write alone leaves it: a
   * certificate nobody references yet, never a dangling reference.
   */
  method EmitCertificate(stub: Stub, courseId: string, studentId: string, newId: string, now: int)
    returns (r: Result<string>, ghost afterCertificate: State)
    modifies stub
    ensures var s := old(stub.state);
            courseId !in s ==> r == Err(DoesNotExist(TheCourse, courseId)) && stub.state == s
    ensures var s := old(stub.state);
            courseId in s && !s[courseId].CourseRecord? ==> r == Err(Malformed(courseId)) && stub.state == s
    ensures var s := old(stub.state);
            HoldsCourse(s, courseId) && s[courseId].course.instructor !in s ==>
              r == Err(DoesNotExist(TheInstructor, s[courseId].course.instructor)) && stub.state == s
    ensures var s := old(stub.state);
            HoldsCourse(s, courseId) && s[courseId].course.instructor in s && studentId !in s ==>
              r == Err(DoesNotExist(TheUser, studentId)) && stub.state == s
    ensures var s := old(stub.state);
            HoldsCourse(s, courseId) && s[courseId].course.instructor in s && studentId in s
            && studentId !in s[courseId].course.students ==>
              r == Err(NotEnrolled(studentId, courseId)) && stub.state == s
    ensures var s := old(stub.state);
            HoldsCourse(s, courseId) && s[courseId].course.instructor in s && studentId in s
            && studentId in s[courseId].course.students && !s[studentId].UserRecord? ==>
              r == Err(Malformed(studentId)) && stub.state == s
    ensures var s := old(stub.state);
            Eligible(s, courseId, studentId) ==>
              var course := s[courseId].course;
              var student := s[studentId].user;
              var certificate := IssuedCertificate(course, studentId, newId, now);
              && (newId in s ==> r == Err(AlreadyExists(TheCertificate, newId)) && stub.state == s)
              && (newId !in s && course.id !in s ==>
                    r == Err(DoesNotExist(TheCourse, course.id)) && stub.state == s)
              && (newId !in s && course.id in s ==>
                    && afterCertificate == s[newId := CertificateRecord(certificate)]
                    && (student.id in s ==>
                          && r == Ok(newId)
                          && stub.state == afterCertificate[student.id :=
                               UserRecord(student.(certificates := student.certificates + [newId]))])
                    && (student.id !in s ==>
                          r == Err(DoesNotExist(TheUser, student.id)) && stub.state == s))
    ensures r.Err? ==> stub.state == old(stub.state)
    ensures CertificatesResolve(old(stub.state)) ==> CertificatesResolve(afterCertificate)
    ensures Consistent(old(stub.state)) ==> Consistent(stub.state)
    ensures Consistent(old(stub.state)) && Eligible(old(stub.state), courseId, studentId) && newId !in old(stub.state) ==>
              && r == Ok(newId)
              && stub.state[newId] == CertificateRecord(IssuedCertificate(old(stub.state)[courseId].course, studentId, newId, now))
              && HoldsUser(stub.state, studentId)
              && stub.state[studentId].user.certificates == old(stub.state)[studentId].user.certificates + [newId]
  {
    var committed := stub.state;
    afterCertificate := stub.state;
    if !CourseExists(stub, courseId) {
      r := Err(DoesNotExist(TheCourse, courseId));
      return;
    }
    var existingCourse := ReadCourse(stub, courseId).value;
    if !existingCourse.CourseRecord? {
      r := Err(Malformed(courseId));
      return;
    }
    var course := existingCourse.course;
    if !UserContract.UserExists(stub, course.instructor) {
      r := Err(DoesNotExist(TheInstructor, course.instructor));
      return;
    }
    if !UserContract.UserExists(stub, studentId) {
      r := Err(DoesNotExist(TheUser, studentId));
      return;
    }
    var existingStudent := UserContract.ReadUser(stub, studentId).value;
    if IndexOf(course.students, studentId).None? {
      r := Err(NotEnrolled(studentId, courseId));
      return;
    }
    if !existingStudent.UserRecord? {
      r := Err(Malformed(studentId));
      return;
    }
    var certificate := IssuedCertificate(course, studentId, newId, now);
    var student := existingStudent.user.(certificates := existingStudent.user.certificates + [certificate.id]);
    ghost var before := stub.state;
    var created := CertificateContract.CreateCertificate(stub, certificate);
    if created.Err? {
      r := Err(created.error);
      return;
    }
    afterCertificate := stub.state;
    if CertificatesResolve(before) {
      OrphanCertificateIsHarmless(before, certificate);
    }
    ghost var updateKeepsConsistent := Consistent(afterCertificate) && !HoldsCertificate(afterCertificate, student.id)
      && (forall c | c in student.certificates :: HoldsCertificate(afterCertificate, c));
    if Consistent(before) {
      assert student.id == studentId && studentId != newId;
      forall c | c in student.certificates ensures HoldsCertificate(afterCertificate, c) {
        if c != newId {
          assert c in before[studentId].user.certificates;
          assert HoldsCertificate(before, c);
        }
      }
      assert updateKeepsConsistent;
    }
    if student.id !in committed {
      // `updateUser` does not see the pending certificate and throws; the
      // transaction is aborted, so its write is discarded.
      stub.state := committed;
      r := Err(DoesNotExist(TheUser, student.id));
      return;
    }
    var updated := UserContract.UpdateUser(stub, student);
    assert updated.Ok?;
    r := Ok(certificate.id);
  }

  /** Writing a fresh certificate before anyone references it cannot create a dangling reference. */
  lemma OrphanCertificateIsHarmless(s: State, certificate: Certificate)
    requires CertificatesResolve(s) && certificate.id !in s
    ensures CertificatesResolve(s[certificate.id := CertificateRecord(certificate)])
  {
    var t := s[certificate.id := CertificateRecord(certificate)];
    forall k, c | k in t && t[k].UserRecord? && c in t[k].user.certificates
      ensures HoldsCertificate(t, c)
    {
      assert k != certificate.id && t[k] == s[k];
      assert HoldsCertificate(s, c);
    }
  }

  /**
   * The opposite order, taken one write at a time: appending a not-yet-written
   * certificate id to the student first leaves a dangling reference until the
   * certificate is written.  This matters only for a store where the two
   * writes can land separately; Fabric commits a transaction's writes
   * together or not at all.
   */
  lemma StudentFirstWouldDangle(s: State, studentId: string, newId: string)
    requires HoldsUser(s, studentId) && newId !in s
    ensures var student := s[studentId].user;
            !CertificatesResolve(s[studentId := UserRecord(student.(certificates := student.certificates + [newId]))])
  {
    var student := s[studentId].user;
    var t := s[studentId := UserRecord(student.(certificates := student.certificates + [newId]))];
    assert newId in t[studentId].user.certificates;
    assert !HoldsCertificate(t, newId);
  }
}
