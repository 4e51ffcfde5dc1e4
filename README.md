# educhain chaincode — a verified model of its contracts

The chaincode keeps three kinds of record in one flat key-value ledger:
users, courses and certificates. Three contracts operate on that ledger:

- `UserContract` provides exists, create, read, update and delete for users.
- `CourseContract` provides the same for courses. It also holds the enrolment
  state machine (`enrollStudent`, `disenrollStudent`) and the issuance
  workflow (`emitCertificate`).
- `CertificateContract` provides exists, a guarded create, and read.
  `CourseContract` calls it internally. src/index.ts registers only
  `UserContract` and `CourseContract` and exports no `CertificateContract`,
  although src/course/course-contract.ts:17 imports the class from there.
  As written that import does not type-check, and if the code is built
  anyway `new CertificateContract()` at line 22 gets `undefined`. The model
  takes the import to be the class in src/certificate/certificate-contract.ts
  and treats its methods as callable.

Two pure mappings convert users and courses to and from their persistence
shapes. Each shape stores a list of ids as one JSON string.

The model is written in Dafny:

- `Ledger.Stub` is the shared `ctx.stub`. Its `state` field maps each key to
  an `Entity`, which is a user, a course or a certificate record.
- Each contract is a module. Operations that write are methods with
  `modifies stub`. Their postconditions give the error for each refused case
  and show the ledger unchanged there. Otherwise they give the new ledger
  exactly.
- Pure reads (`*Exists`, `read*`) are functions.
- Existence means only that the key is present, whatever kind of record it
  holds. The contracts rely on this. `createCertificate` tests the course id
  with `userExists`, and `enrollStudent` accepts any stored key as a student.
- Reads return whatever record is stored under the key, without checking its
  kind, just as `JSON.parse(...) as T` does.

Two integrity properties are stated in `Ledger`:

- `IdsMatchKeys`: every record is stored under its own id.
- `CertificatesResolve`: no user lists a certificate id that is not a stored
  certificate.

Together they form `Consistent`. Several operations keep it unconditionally:
creating and updating courses, creating certificates, enrolment,
disenrolment and issuance. The other operations keep it only under side
conditions, and their postconditions say which:

- `createUser` and `updateUser` store whatever certificate list the caller
  passes.
- `deleteUser` and `deleteCourse` delete a record of any kind, so they can
  delete a certificate.

Issuance writes the certificate before the student's record. The ghost
result `afterCertificate` of `CourseContract.EmitCertificate` is the ledger
as the first write alone leaves it. It still satisfies `CertificatesResolve`:
the new certificate is an orphan, and no reference dangles.
`StudentFirstWouldDangle` shows that the opposite order would leave a
dangling reference at that point. The order matters only for a store where
the two writes could land separately. Under Fabric a transaction's write set
is committed all at once or not at all, so `afterCertificate` is never a
committed or readable ledger, and both orders commit the same ledger.

Inside one transaction, `getState` reads the committed ledger and does not
see the transaction's own pending `putState`. A transaction that throws
commits nothing. Only `emitCertificate` reads after it has written: the
existence test inside `updateUser` runs after the certificate write. The
model makes that test against the committed ledger. When it fails, the
model discards the certificate write and returns the error.

`updateUser` replaces the whole record (src/user/user-contract.ts:45-53).
Only `updateCourse` merges (src/course/course-contract.ts:68).

The list encoding is modelled concretely:

- `JsonStringList.Stringify` is `JSON.stringify` of an array of strings.
  It writes the compact form, uses the escapes `\" \\ \b \f \n \r \t`, and
  writes `\u00xx` for the other control characters.
- `JsonStringList.Parse` is the matching subset of `JSON.parse`.
- `ParseStringify` proves that reading back what was written gives the
  original list. The user and course round trips rest on this lemma.

## Model

| member | source | states |
|---|---|---|
| `UserContract.UserExists` | src/user/user-contract.ts:18-21 | true exactly when some record, of any kind, is stored under the key |
| `UserContract.CreateUser` | src/user/user-contract.ts:23-31 | an id already present fails "already exists" with the ledger unchanged; otherwise exactly that key is set to the user and nothing else changes; afterwards the user exists; consistency is kept when the user's certificate ids all resolve |
| `UserContract.ReadUser` | src/user/user-contract.ts:33-43 | succeeds exactly when the key is present and then returns the stored record itself; otherwise fails "The user … does not exist" |
| `UserContract.UpdateUser` | src/user/user-contract.ts:45-53 | an absent id fails "does not exist" with the ledger unchanged; otherwise the whole record at the user's id is replaced by the input (no merge) and no other key changes |
| `UserContract.DeleteUser` | src/user/user-contract.ts:55-62 | an absent id fails with the ledger unchanged; otherwise only that key is removed and the user no longer exists; nothing referring to the id is touched, and consistency is kept unless the key held a certificate |
| `CertificateContract.CertificateExists` | src/certificate/certificate-contract.ts:11-17 | true exactly when some record is stored under the key |
| `CertificateContract.CreateCertificate` | src/certificate/certificate-contract.ts:19-56 | fails, in this order, on an id in use, an absent course key (plain key test, any kind of record passes), an absent instructor, an absent student, each time with the ledger unchanged; otherwise stores the certificate under its id only and returns the id; consistency is kept |
| `CertificateContract.ReadCertificate` | src/certificate/certificate-contract.ts:58-71 | succeeds exactly when the key is present and returns the stored record; otherwise fails "The certificate … does not exist" |
| `CourseContract.CourseExists` | src/course/course-contract.ts:24-29 | true exactly when some record is stored under the key |
| `CourseContract.CreateCourse` | src/course/course-contract.ts:31-47 | fails "already exists" on an id in use, then "The user … does not exist" on an absent instructor, with the ledger unchanged; otherwise stores the course as given under its id only; consistency is kept |
| `CourseContract.ReadCourse` | src/course/course-contract.ts:49-59 | succeeds exactly when the key is present and returns the stored record; otherwise fails "The course … does not exist" |
| `CourseContract.MergeCompletePatch` | src/course/course-contract.ts:68 | a patch supplying every field turns any existing course into exactly the input course |
| `CourseContract.MergeKeepsOmitted` | src/course/course-contract.ts:68 | after the spread, every field the patch omits keeps the existing value and every supplied field takes the patch's value |
| `CourseContract.UpdateCourse` | src/course/course-contract.ts:61-71 | an absent id fails with the ledger unchanged; otherwise the key gets the existing course overlaid with the supplied fields and nothing else changes; consistency is kept |
| `CourseContract.DeleteCourse` | src/course/course-contract.ts:73-80 | an absent id fails with the ledger unchanged; otherwise only that key is removed and the course no longer exists |
| `CourseContract.EnrollStudent` | src/course/course-contract.ts:82-117 | fails, in order, on an absent course, an absent student key, an already enrolled student, each with the ledger unchanged; on success the students list is the old one plus the student, no other field or key changes, the student appears exactly once, and a duplicate-free list stays duplicate-free |
| `CourseContract.DisenrollStudent` | src/course/course-contract.ts:119-148 | fails "does not exist" on an absent course and "not enrolled in the course" when the student is not on the list (the empty list and a first-position hit are handled like any other), with the ledger unchanged; on success exactly the named student is removed, every other student stays, and no other key changes |
| `CourseContract.EmitCertificate` | src/course/course-contract.ts:150-214 | fails, in order, on an absent course, an absent instructor ("The instructor …"), an absent student, a student not enrolled, each with the ledger unchanged; then the nested `createCertificate` refuses a clashing new id or an absent course id, again writing nothing; otherwise writes the certificate (student, course id, the course's instructor and duration, the timestamp) first and then the student with the new id appended, and returns the id; the student test of that second step reads the committed ledger, and when it fails nothing is committed; the ledger after the first write alone keeps every certificate reference resolvable; from a consistent ledger an eligible student with a fresh certificate id always gets the certificate and the ledger stays consistent |
| `CourseContract.OrphanCertificateIsHarmless` | src/course/course-contract.ts:211 | writing a certificate under a fresh id before any user references it keeps every user's certificate references resolvable |
| `CourseContract.StudentFirstWouldDangle` | src/course/course-contract.ts:210-212 | appending the new id to the student before the certificate exists leaves a dangling reference; this separates the two orders only for a store where the writes could land one at a time, since Fabric commits both together or neither |
| `Roster.IndexOf` | src/course/course-contract.ts:137-140 | gives no position exactly when the student is absent; a position it gives holds the student and no earlier position does |
| `Roster.AppendNew` | src/course/course-contract.ts:113 | appending a student not yet on a duplicate-free list keeps it duplicate-free and puts the student on it exactly once |
| `Roster.RemoveStudent` | src/course/course-contract.ts:145 | removal shortens the list by one and takes away exactly one occurrence of the student (as multisets) |
| `Roster.RemoveFromDistinct` | src/course/course-contract.ts:137-145 | on a duplicate-free list the named student is gone, every other student remains, and the list stays duplicate-free |
| `Roster.DisenrollAsWritten` | src/course/course-contract.ts:137-145 | as written, the call succeeds exactly when the id is on the list and is not empty; the position `splice` uses follows JavaScript's rules for a negative or too-large start; for a position inside the list exactly one student goes, and for a start at or past the end the list is returned unchanged |
| `Roster.SpliceStart` | src/course/course-contract.ts:145 | the position `splice(start, 1)` uses never passes the end, equals a start inside the list, is the end for a start at or past it, counts a negative start from the end, and is 0 for a negative start beyond the front |
| `Roster.AsWrittenMissesEmptyId` | src/course/course-contract.ts:103-105 | as written, an enrolled empty id is reported as not enrolled although it is on the list, and enrolling it again would list it twice |
| `Roster.AsWrittenRemovesFirstStudent` | src/course/course-contract.ts:137-145 | as written, an enrolled id that is not first is kept and the first student is removed instead |
| `JsonStringList.ParseStringify` | src/user/user-model.ts:18-28 | parsing the text `JSON.stringify` writes for a list of strings gives back that list, escapes included |
| `UserModel.MapToPersistence` | src/user/user-model.ts:12-20 | id, name, email and publicKey are copied; the certificates field is a string that parses back to the certificate list |
| `UserModel.MapFromPersistence` | src/user/user-model.ts:22-30 | succeeds exactly when the certificates string parses; the four scalar fields are copied and the list is the parsed one |
| `UserModel.RoundTrip` | src/user/user-model.ts:12-30 | mapping a user to persistence and back gives the same user |
| `UserModel.CanonicalRoundTrip` | src/user/user-model.ts:12-30 | a stored shape whose certificate string is `JSON.stringify` of some list reads back with exactly that list, and writing it again reproduces the shape |
| `CourseModel.MapToPersistence` | src/course/course-model.ts:13-21 | id, name, duration and instructor (`toString` of a string id is that id) are copied; the students field parses back to the student list |
| `CourseModel.MapFromPersistence` | src/course/course-model.ts:23-31 | succeeds exactly when the students string parses; the scalar fields are copied and the list is the parsed one |
| `CourseModel.RoundTrip` | src/course/course-model.ts:13-31 | mapping a course to persistence and back gives the same course |
| `CourseModel.CanonicalRoundTrip` | src/course/course-model.ts:13-31 | a stored shape whose students string is `JSON.stringify` of some list reads back with exactly that list, and writing it again reproduces the shape |
| `Scenario.IssueOneCertificate` | src/course/course-contract.spec.ts:357-376 | on an empty ledger: create an instructor, a course, a student; enrol; issue; the certificate read back carries the student, instructor, course and duration, and the student's record lists its id |

## Left out

- Fabric plumbing is not modelled. This covers `Context`, the
  `@Transaction`/`@Info`/`@Returns`/`@Object`/`@Property` decorators,
  logging, and the `Buffer`/`JSON.stringify`/`JSON.parse` of whole records.
  The ledger stores the records themselves. A stored record is never an
  empty value, so "a non-empty value is stored" is key presence.
- `uuidv4()` and `new Date()` are the parameters `newId` and `now` of
  `EmitCertificate`. A clash of `newId` with an existing key is modelled as
  the source handles it: `createCertificate` refuses it.
- Endorsement, ordering and concurrent invocations (MVCC conflicts) belong
  to the peer and are not modelled. The write set and the committed ledger
  are one map, except for the one read-after-write described above.
- CourseContract.EmitCertificate: the committed-ledger read and the abort are
  modelled only for the student test of the second step. That is the one
  place where the source reads after writing. The case arises only when the
  student record's own `id` field differs from its key, for example when it
  equals the new certificate id.
- src/certificate/certificate-model.ts is not part of this model. It round
  trips `completionDate` through the host's `Date` text form, which depends
  on the time zone and drops milliseconds, so there is no exact round trip
  to state. The timestamp is an integer here.
- src/index.ts registers only `UserContract` and `CourseContract` and
  exports no `CertificateContract`, although
  src/course/course-contract.ts:17 imports it from there. The model takes
  that import to be the class in src/certificate/certificate-contract.ts and
  treats its methods as callable. Contract registration is not modelled, so
  the fact that `CertificateContract`'s own transactions are never exposed
  is not modelled either.
- Dead branches are not modelled: `length >= 0` is always true at
  src/course/course-contract.ts:102, 131 and 185, so lines 110-111, 132-136
  and 186-190 never run.
- In some places the source reads a field of a record that is of the wrong
  kind: `students` at lines 102, 131 and 192, `instructor` at line 164, and
  `certificates` at line 210. For a user or certificate stored under a
  course id, or a course or certificate under a student id, the source then
  fails with a runtime type error before any write. The model fails with
  `Malformed(key)` at the same point. The text of the runtime error is not
  modelled.
- CourseContract.EmitCertificate: for a non-course record under the course
  id, the source first looks up the undefined `instructor` through the stub.
  The model fails with `Malformed` at once. Both write nothing.
- CourseContract.UpdateCourse: when the key holds a user or a certificate,
  the source stores a hybrid object of both kinds' fields. The model refuses
  with `Malformed`, because a record of two kinds cannot be represented.
- CourseContract.DisenrollStudent: models the intended removal of the named
  student, not the `splice` at line 145 (see Findings).
- CourseContract.DisenrollStudent: the source tests enrolment with the
  truth value of the id that `find` returns (lines 137-140), so an enrolled
  empty id is refused as not enrolled. The model removes it. A course whose
  list holds `""` can be stored, because `createCourse` and `updateCourse`
  accept any list. `disenrollStudent` never checks that the student exists.
  See Findings.
- CourseContract.EnrollStudent: the same test (lines 103-105) lets an
  enrolled empty id be enrolled again whenever a record is stored under the
  key `""`. The model refuses it as already enrolled.
- CourseContract.EmitCertificate: the same test (lines 192-195) refuses an
  enrolled empty id. The model issues the certificate.
- Field types are modelled loosely. `duration` is a JavaScript number and is
  an unbounded integer here. Ids and names are sequences of Unicode scalar
  values, so the lone UTF-16 surrogates a JavaScript string may hold are not
  modelled.
- `JsonStringList.Parse` is narrower than `JSON.parse`. It reads only the
  compact array-of-strings form. It returns no value, as if it threw, where
  `JSON.parse` would accept white space or a `\u` surrogate escape, or would
  return a non-array value unchecked.
- UserModel.MapFromPersistence: gives no user for a certificates string that
  is not compact array-of-strings text, where `JSON.parse` at
  src/user/user-model.ts:28 accepts it. The cause is the narrower
  `JsonStringList.Parse`.
- CourseModel.MapFromPersistence: gives no course for a students string that
  is not compact array-of-strings text, where `JSON.parse` at
  src/course/course-model.ts:29 accepts it. The cause is the same.
- Roster.DisenrollAsWritten: `start` stands for the integer JavaScript
  derives from the id. That is `ToNumber` followed by truncation, and it
  gives 0 for NaN, so for every UUID. The conversion itself is not modelled.
- `fromJSON` validation of transaction arguments against the `@Object`
  metadata happens in the Fabric runtime and is not modelled. The
  `updateCourse` argument is a patch whose fields other than `id` may be
  missing.

## Findings

| source | as written | input that shows it | evidently intended | confidence | as-written member | corrected member |
|---|---|---|---|---|---|---|
| src/course/course-contract.ts:137-145 | `find` returns the matching id string, not its index, and `splice(studentIndex, 1)` converts a UUID string to position 0 | course students `["s1", "s2"]` (UUIDs in practice), `disenrollStudent(course, "s2")` stores `["s2"]` | remove the named student, giving `["s1"]` | high; not executed | `Roster.AsWrittenRemovesFirstStudent` | `Roster.RemoveFromDistinct` |
| src/course/course-contract.ts:137-143 | the enrolment test is the truth value of the id `find` returns, and an empty id is falsy | a course stored with students `[""]` (`createCourse` accepts any list): `disenrollStudent(course, "")` throws "not enrolled" | an enrolled id is found whatever its text, and `""` is removed | medium; not executed | `Roster.AsWrittenMissesEmptyId` | `Roster.IndexOf` |
