/**
 * The mapping between a course and its persistence shape
 * (src/course/course-model.ts, src/course/course-persistence.ts): the scalar
 * fields are copied and the student list travels as one JSON string.
 */
module CourseModel {
  import opened Wrappers
  import opened Records
  import JsonStringList

  datatype CoursePersistence = CoursePersistence(
    id: string,
    name: string,
    duration: int,
    instructor: string,
    students: string)

  /** `CourseModel.mapToPersistence`; `instructor.toString()` is the identity on a string id. */
  function MapToPersistence(course: Course): (p: CoursePersistence)
    ensures p.id == course.id && p.name == course.name
    ensures p.duration == course.duration && p.instructor == course.instructor
    ensures JsonStringList.Parse(p.students) == Some(course.students)
  {
    JsonStringList.ParseStringify(course.students);
    CoursePersistence(course.id, course.name, course.duration, course.instructor,
                      JsonStringList.Stringify(course.students))
  }

  /** `CourseModel.mapFromPersistence`; None where `JSON.parse` of the student field fails. */
  function MapFromPersistence(p: CoursePersistence): (r: Option<Course>)
    ensures r.Some? <==> JsonStringList.Parse(p.students).Some?
    ensures r.Some? ==> && r.value.id == p.id && r.value.name == p.name
                        && r.value.duration == p.duration && r.value.instructor == p.instructor
                        && Some(r.value.students) == JsonStringList.Parse(p.students)
  {
    match JsonStringList.Parse(p.students)
    case None => None
    case Some(students) => Some(Course(p.id, p.name, p.duration, p.instructor, students))
  }

  /** Storing a course and reading it back gives the same course. */
  lemma RoundTrip(course: Course)
    ensures MapFromPersistence(MapToPersistence(course)) == Some(course)
  {
  }

  /** A stored shape whose student field is `JSON.stringify` of a list reads back with that list and is reproduced exactly. */
  lemma CanonicalRoundTrip(p: CoursePersistence, students: seq<string>)
    requires p.students == JsonStringList.Stringify(students)
    ensures MapFromPersistence(p) == Some(Course(p.id, p.name, p.duration, p.instructor, students))
    ensures MapToPersistence(MapFromPersistence(p).value) == p
  {
    JsonStringList.ParseStringify(students);
  }
}
