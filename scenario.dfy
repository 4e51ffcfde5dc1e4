/**
 * A client of the contracts that replays the issuance flow of
 * src/course/course-contract.spec.ts on an empty ledger: an instructor, a
 * course, a student, an enrolment and one certificate.
 */
module Scenario {
  import opened Records
  import opened Ledger
  import UserContract
  import CertificateContract
  import CourseContract

  method IssueOneCertificate() returns (issued: Result<string>, stored: Result<Entity>, holder: Result<Entity>)
    ensures issued == Ok("X")
    ensures stored == Ok(CertificateRecord(Certificate("X", "B", 0, 2, "C", "A")))
    ensures holder == Ok(UserRecord(User("B", "Student", "b@example.org", "kb", ["X"])))
  {
    var stub := new Stub(map[]);
    var _ := UserContract.CreateUser(stub, User("A", "Instructor", "a@example.org", "ka", []));
    var _ := CourseContract.CreateCourse(stub, Course("C", "Course", 2, "A", []));
    var _ := UserContract.CreateUser(stub, User("B", "Student", "b@example.org", "kb", []));
    var _ := CourseContract.EnrollStudent(stub, "C", "B");
    ghost var before := stub.state;
    assert Consistent(before);
    assert before["C"] == CourseRecord(Course("C", "Course", 2, "A", ["B"]));
    assert before["B"] == UserRecord(User("B", "Student", "b@example.org", "kb", []));
    assert CourseContract.Eligible(before, "C", "B") && "X" !in before;
    ghost var between;
    issued, between := CourseContract.EmitCertificate(stub, "C", "B", "X", 0);
    assert stub.state["B"] == UserRecord(User("B", "Student", "b@example.org", "kb", [] + ["X"]));
    assert [] + ["X"] == ["X"];
    stored := CertificateContract.ReadCertificate(stub, "X");
    holder := UserContract.ReadUser(stub, "B");
  }
}
