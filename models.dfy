/**
 * The records the data-access layer reads and writes: one per row of the
 * `teacher` and `course` tables, plus the write-side shapes posted by clients.
 */
module Models {

  import opened Wrappers

  /** A course price. The data-access layer only copies it, so its number type is left abstract. */
  datatype Price = Price(repr: string)

  /** The value of a course's `time` column, which the database fills in on insert. */
  datatype Timestamp = Timestamp(repr: string)

  datatype Teacher = Teacher(id: int, name: string, pictureUrl: string, profile: string)

  datatype CreateTeacher = CreateTeacher(name: string, pictureUrl: string, profile: string)

  /** A partial update: `None` means "keep what is stored". */
  datatype UpdateTeacher = UpdateTeacher(name: Option<string>, pictureUrl: Option<string>, profile: Option<string>)

  datatype Course = Course(
    teacherId: int,
    id: int,
    name: string,
    time: Timestamp,
    description: Option<string>,
    format: Option<string>,
    structure: Option<string>,
    duration: Option<int>,
    price: Option<Price>,
    language: Option<string>,
    level: Option<string>)

  datatype CreateCourse = CreateCourse(
    teacherId: int,
    name: string,
    description: Option<string>,
    format: Option<string>,
    structure: Option<string>,
    duration: Option<int>,
    price: Option<Price>,
    language: Option<string>,
    level: Option<string>)

  /** A course update: the name is always given, every other column only when present. */
  datatype UpdateCourse = UpdateCourse(
    name: string,
    description: Option<string>,
    format: Option<string>,
    structure: Option<string>,
    duration: Option<int>,
    price: Option<Price>,
    language: Option<string>,
    level: Option<string>)

  /** What a delete statement reports back; it stands for the confirmation text built from it. */
  datatype Deleted = Deleted(rowsAffected: nat)

  /** The partial-update rule for a required column: a present value replaces, an absent one keeps. */
  function Or<T>(provided: Option<T>, stored: T): T
  {
    if provided.Some? then provided.value else stored
  }

  /** The partial-update rule for a nullable column. */
  function OrElse<T>(provided: Option<T>, stored: Option<T>): Option<T>
  {
    if provided.Some? then provided else stored
  }

  /** `result` is what the partial-update rule gives for `provided` over `stored`. */
  predicate Merged<T(==)>(provided: Option<T>, stored: Option<T>, result: Option<T>)
  {
    (provided.Some? ==> result == provided) && (provided.None? ==> result == stored)
  }
}
