/**
 * The three kinds of record the chaincode keeps (src/user/user.ts,
 * src/course/course.ts, src/certificate/certificate.ts), the value stored
 * under a ledger key, and the errors the contracts raise.
 */
module Records {

  /** An account; `certificates` lists the ids of the certificates it holds. */
  datatype User = User(
    id: string,
    name: string,
    email: string,
    publicKey: string,
    certificates: seq<string>)

  /** A course; `instructor` and `students` are user ids. */
  datatype Course = Course(
    id: string,
    name: string,
    duration: int,
    instructor: string,
    students: seq<string>)

  /** A certificate; `completionDate` is a timestamp supplied by the caller. */
  datatype Certificate = Certificate(
    id: string,
    studentId: string,
    completionDate: int,
    duration: int,
    courseId: string,
    instructorId: string)

  /** What one ledger key holds: a record of one of the three kinds. */
  datatype Entity =
    | UserRecord(user: User)
    | CourseRecord(course: Course)
    | CertificateRecord(certificate: Certificate)
  {
    /** The record's own `id` field. */
    function Id(): string
    {
      match this
      case UserRecord(u) => u.id
      case CourseRecord(c) => c.id
      case CertificateRecord(c) => c.id
    }
  }

  /** The word that opens an error message ("The user ...", "The instructor ..."). */
  datatype Noun = TheUser | TheCourse | TheCertificate | TheInstructor

  /** The failures the contracts raise, each naming the kind and the id involved. */
  datatype Error =
    | AlreadyExists(noun: Noun, id: string)            // "The <noun> <id> already exists"
    | DoesNotExist(noun: Noun, id: string)             // "The <noun> <id> does not exist"
    | AlreadyEnrolled(studentId: string)               // "The user <id> is already enrolled"
    | NotEnrolled(studentId: string, courseId: string) // "The user <id> is not enrolled in the course <id>"
    | Malformed(key: string)  // the record at `key` lacks a field the operation uses (a runtime type error)

  /** The outcome of a transaction: a value, or the error it was rejected with. */
  datatype Result<+T> = Ok(value: T) | Err(error: Error)
}
