/**
 * The certificate registry (src/certificate/certificate-contract.ts):
 * existence, guarded creation and read.  Every existence test it makes,
 * the course's included, is the plain key test of the user registry.
 */
module CertificateContract {
  import opened Records
  import opened Ledger
  import UserContract

  /** `certificateExists`: a record of any kind is stored under the key. */
  function CertificateExists(stub: Stub, certificateId: string): (r: bool)
    reads stub
    ensures r <==> certificateId in stub.state
  {
    certificateId in stub.state
  }

  /**
   * `createCertificate`: refuses, in this order, an id in use, a missing
   * course, a missing instructor and a missing student; otherwise stores the
   * certificate under its id and returns the id.
   */
  method CreateCertificate(stub: Stub, certificate: Certificate) returns (r: Result<string>)
    modifies stub
    ensures var s := old(stub.state);
            certificate.id in s ==>
              r == Err(AlreadyExists(TheCertificate, certificate.id)) && stub.state == s
    ensures var s := old(stub.state);
            certificate.id !in s && certificate.courseId !in s ==>
              r == Err(DoesNotExist(TheCourse, certificate.courseId)) && stub.state == s
    ensures var s := old(stub.state);
            certificate.id !in s && certificate.courseId in s && certificate.instructorId !in s ==>
              r == Err(DoesNotExist(TheUser, certificate.instructorId)) && stub.state == s
    ensures var s := old(stub.state);
            certificate.id !in s && certificate.courseId in s && certificate.instructorId in s
            && certificate.studentId !in s ==>
              r == Err(DoesNotExist(TheUser, certificate.studentId)) && stub.state == s
    ensures var s := old(stub.state);
            certificate.id !in s && certificate.courseId in s && certificate.instructorId in s
            && certificate.studentId in s ==>
              r == Ok(certificate.id) && stub.state == s[certificate.id := CertificateRecord(certificate)]
    ensures r.Err? ==> stub.state == old(stub.state)
    ensures Consistent(old(stub.state)) ==> Consistent(stub.state)
  {
    if CertificateExists(stub, certificate.id) {
      return Err(AlreadyExists(TheCertificate, certificate.id));
    }
    if !UserContract.UserExists(stub, certificate.courseId) {
      return Err(DoesNotExist(TheCourse, certificate.courseId));
    }
    if !UserContract.UserExists(stub, certificate.instructorId) {
      return Err(DoesNotExist(TheUser, certificate.instructorId));
    }
    if !UserContract.UserExists(stub, certificate.studentId) {
      return Err(DoesNotExist(TheUser, certificate.studentId));
    }
    ghost var before := stub.state;
    stub.PutState(certificate.id, CertificateRecord(certificate));
    if Consistent(before) {
      PutKeepsConsistent(before, CertificateRecord(certificate));
    }
    r := Ok(certificate.id);
  }

  /** `readCertificate`: the record stored under the key, of whatever kind, unchecked. */
  function ReadCertificate(stub: Stub, certificateId: string): (r: Result<Entity>)
    reads stub
    ensures r.Ok? <==> certificateId in stub.state
    ensures r.Ok? ==> r.value == stub.state[certificateId]
    ensures r.Err? ==> r.error == DoesNotExist(TheCertificate, certificateId)
  {
    if !CertificateExists(stub, certificateId) then Err(DoesNotExist(TheCertificate, certificateId))
    else Ok(stub.state[certificateId])
  }
}
