# Course manager data access and error taxonomy, in Dafny

This project models two parts of a teacher/course REST backend. Both run against a MySQL database.

- **The data-access layer** of the web service. Its `teacher` and `course`
  tables are held in memory by two classes, `TeacherDb.TeacherTable` and
  `CourseDb.CourseTable`. Each one holds its rows in storage order, with an
  auto-increment counter `nextId`. Its invariant `Valid()` says that ids are
  unique and below the counter. Reads are functions on the table. Inserts,
  updates and deletes are methods that reassign the rows, and their
  postconditions give the whole new table in terms of the old one. Every
  operation returns a `Result` whose error side is the service's `MyError`.
- **The error taxonomy** of the web service (`ServiceErrors`) and of the web app
  (`WebappErrors`). It maps each error variant to an HTTP status (400, 404 and 500,
  as numbered in sections 15.5.1, 15.5.5 and 15.6.1 of RFC 9110) and to the
  message a client sees. It also covers the conversions from the database
  driver's and the web framework's errors.

Behaviour the model keeps as the code has it:

- Listing a teacher's courses never fails; an empty list counts as a success.
  Listing all teachers fails with `NotFound("No teachers found")` exactly when
  the table is empty.
- An update follows the partial-update rule: a present field replaces the
  stored one and an absent field keeps it. The course `name` is always given.
- The course `UPDATE` statement has no `WHERE` clause. So `CourseTable.Update`
  writes the merged name, description, format, structure, duration, price,
  language and level into every course row (`WriteAll`). Each row keeps its
  own teacher id, id and time.
- The course returned by an update is built from values already in hand and is
  not re-read. It still equals what a detail request would read afterwards
  (`LookupAfterWriteAll`). The teacher update writes only its own row and
  returns the row as re-read.
- Course creation reads back the first row carrying the submitted name. This
  may be an older course with the same name (`CreateMayReturnNamesake`).
  Teacher creation reads back by the generated id.
- Deletes succeed even when nothing matched. They report the number of rows
  affected, which is at most one because ids are unique.
- The client message of `DBError` and `ActixError` is a fixed text. The whole
  error response does not depend on the detail these variants carry
  (`InternalDetailNeverReachesClient`). `NotFound` and `InvalidInput` show
  their message as is.

The SELECT statements have no `ORDER BY`. The model takes storage order
(insertion order) as the order of their results. That is the order in
which "the first row with that name" is meant.

External inputs are explicit parameters:

- The server time that fills a new course's `time` column is the `now`
  parameter of `CourseTable.Create`.
- Some statements have their failures remapped by the code itself to a
  `NotFound` or a `DBError` with a fixed message. Each of those statements has
  a fault input saying whether the database fails it:
  - `readFault` for the teacher details read, the teacher update's first read
    and the course update's read, all answered `NotFound`;
  - `writeFault` for the teacher `UPDATE`, answered `DBError("Update teacher failed")`;
  - `rereadFault` for the read after the teacher `UPDATE`, answered
    `NotFound("Updated teacher not found")` although the row has already been written;
  - `dbFault` for the teacher `DELETE`, answered `DBError("Unable to delete teacher")`.

## Model

| member | source | states |
|---|---|---|
| `ServiceErrors.ClientMessage` | actix_web/websevice/src/errors.rs:22-41 | DBError shows "Database error", ActixError shows "Internal server error", NotFound and InvalidInput show exactly their message |
| `ServiceErrors.StatusCode` | actix_web/websevice/src/errors.rs:45-51 | status is 500 exactly for DBError and ActixError, 404 exactly for NotFound, 400 exactly for InvalidInput |
| `ServiceErrors.ErrorResponse` | actix_web/websevice/src/errors.rs:53-57 | the response's status is the status mapping and its body's error_msg is the client message |
| `ServiceErrors.FromActix` | actix_web/websevice/src/errors.rs:68-72 | every framework error converts to ActixError carrying the framework's text |
| `ServiceErrors.FromSqlx` | actix_web/websevice/src/errors.rs:75-79 | every driver error converts to DBError carrying the driver's text |
| `ServiceErrors.InternalDetailNeverReachesClient` | actix_web/websevice/src/errors.rs:24-31 | for DBError and ActixError the whole response is the same whatever detail is carried, and its status is 500 |
| `ServiceErrors.ClientErrorEchoesMessage` | actix_web/websevice/src/errors.rs:32-39 | a response with a 4xx status comes from NotFound or InvalidInput and its body is exactly the carried message |
| `ServiceErrors.SqlxFailureResponse` | actix_web/websevice/src/errors.rs:74-79 | any driver failure reaches the client as 500 with body "Database error" |
| `ServiceErrors.ActixFailureResponse` | actix_web/websevice/src/errors.rs:67-72 | any framework failure reaches the client as 500 with body "Internal server error" |
| `WebappErrors.ClientMessage` | actix_web/webapp/src/errors.rs:22-37 | ActixError shows "Internal server error"; TeraError and NotFound show exactly their message |
| `WebappErrors.FromActix` | actix_web/webapp/src/errors.rs:46-50 | every framework error converts to ActixError carrying the framework's text |
| `WebappErrors.ActixPayloadNeverReachesClient` | actix_web/webapp/src/errors.rs:24-27 | ActixError's message is the same whatever payload it carries |
| `WebappErrors.ActixFailureMessage` | actix_web/webapp/src/errors.rs:46-50 | any framework failure is shown to the client as "Internal server error" |
| `CourseDb.OfTeacher` | actix_web/websevice/src/dbaccess/course.rs:8-14 | a course is in the result exactly when it is in the table and belongs to the teacher, and it occurs there exactly as many times as in the table |
| `CourseDb.Lookup` | actix_web/websevice/src/dbaccess/course.rs:23-30 | a found row is in the table under the composite key; none is found only when no row has that key |
| `CourseDb.FirstNamed` | actix_web/websevice/src/dbaccess/course.rs:57-61 | the position found holds the name and no earlier row does; none is found only when no row has the name |
| `CourseDb.CountKey` | actix_web/websevice/src/dbaccess/course.rs:70-74 | the rows a delete affects: zero exactly when no row has the key |
| `CourseDb.Without` | actix_web/websevice/src/dbaccess/course.rs:70-74 | a row survives exactly when it is not under the composite key, as many times as it occurs in the table; the size drops by the affected count |
| `CourseDb.NewRow` | actix_web/websevice/src/dbaccess/course.rs:42-54 | the inserted row carries every submitted column, the generated id and the server time |
| `CourseDb.Merge` | actix_web/websevice/src/dbaccess/course.rs:92-162 | the name comes from the update; each optional field is the update's if present, else the stored one; teacher id and id are the path's, time the stored one |
| `CourseDb.WriteAll` | actix_web/websevice/src/dbaccess/course.rs:136-148 | every row takes the merged content columns and keeps its own teacher id, id and time |
| `CourseDb.CourseTable.ForTeacher` | actix_web/websevice/src/dbaccess/course.rs:5-17 | always Ok, possibly empty, holding exactly the teacher's rows, each as many times as in the table |
| `CourseDb.CourseTable.Detail` | actix_web/websevice/src/dbaccess/course.rs:19-37 | Ok exactly when a row has the composite key, and then that row; otherwise NotFound("Course ID not found") |
| `CourseDb.CourseTable.Create` | actix_web/websevice/src/dbaccess/course.rs:39-65 | the table gains one row with the submitted fields under a fresh id; the reply is the first row with the submitted name, which is the new row only when no older course has that name; a detail request for the new key returns the new row |
| `CourseDb.CourseTable.Delete` | actix_web/websevice/src/dbaccess/course.rs:67-77 | the table loses exactly the rows under the key, others kept in order; Ok with the affected count (at most one), also when nothing matched |
| `CourseDb.CourseTable.Update` | actix_web/websevice/src/dbaccess/course.rs:79-163 | a missing key or a failed read gives NotFound("Course ID not found") and an unchanged table; otherwise the reply is the merged course, every row is rewritten as written, and a detail request then returns the reply |
| `CourseDb.CountKeyAtMostOne` | actix_web/websevice/src/dbaccess/course.rs:70-74 | with unique ids a delete affects at most one row |
| `CourseDb.WithoutKeepsUnique` | actix_web/websevice/src/dbaccess/course.rs:70-74 | deleting keeps the id column unique |
| `CourseDb.WithoutIdempotent` | actix_web/websevice/src/dbaccess/course.rs:70-74 | deleting a key twice leaves the same table as deleting it once |
| `CourseDb.DetailAfterDelete` | actix_web/websevice/src/dbaccess/course.rs:67-77 | after a delete the key is not found, and every row under another key is still there |
| `CourseDb.DetailAfterCreate` | actix_web/websevice/src/dbaccess/course.rs:42-54 | after appending a row under a fresh id, a detail request for its key returns exactly that row |
| `CourseDb.FirstNamedAfterAppend` | actix_web/websevice/src/dbaccess/course.rs:56-61 | after an insert the name is always found; an older namesake keeps being the one found, otherwise the new row is |
| `CourseDb.LookupAfterWriteAll` | actix_web/websevice/src/dbaccess/course.rs:136-162 | the course the update returns without re-reading equals what a detail request reads after the write |
| `CourseDb.WriteAllKeepsValid` | actix_web/websevice/src/dbaccess/course.rs:136-148 | the unscoped write keeps ids unique and below the counter |
| `CourseDb.MergeAbsentKeeps` | actix_web/websevice/src/dbaccess/course.rs:94-134 | with every optional field absent the reply is the stored course with only the name replaced |
| `CourseDb.MergeIdempotent` | actix_web/websevice/src/dbaccess/course.rs:92-134 | merging the same update twice gives the same course as merging it once |
| `CourseDb.CreateMayReturnNamesake` | actix_web/websevice/src/dbaccess/course.rs:56-61 | for any table whose ids avoid the new id and that holds a course with the submitted name, the row read back after the insert is an older row, never the inserted one |
| `CourseDb.MissingCourseIs404` | actix_web/websevice/src/dbaccess/course.rs:32-36 | a missing composite key is answered with status 404 and body "Course ID not found" |
| `TeacherDb.Find` | actix_web/websevice/src/dbaccess/teacher.rs:23-25 | a found row is in the table with that id; none is found only when no row has it |
| `TeacherDb.CountId` | actix_web/websevice/src/dbaccess/teacher.rs:100-101 | the rows a delete affects: zero exactly when no row has the id |
| `TeacherDb.Without` | actix_web/websevice/src/dbaccess/teacher.rs:100-101 | a row survives exactly when its id differs, as many times as it occurs in the table; the size drops by the affected count |
| `TeacherDb.Replace` | actix_web/websevice/src/dbaccess/teacher.rs:83-86 | the row with the teacher's id becomes the teacher; every other row and every id stays |
| `TeacherDb.Merge` | actix_web/websevice/src/dbaccess/teacher.rs:64-81 | each field is the update's if present, else the stored one; the id is kept |
| `TeacherDb.TeacherTable.All` | actix_web/websevice/src/dbaccess/teacher.rs:5-20 | NotFound("No teachers found") exactly when the table is empty; otherwise every row, same count, fields copied unchanged |
| `TeacherDb.TeacherTable.Details` | actix_web/websevice/src/dbaccess/teacher.rs:22-35 | Ok exactly when the read does not fail and a row has the id, and then that row; a missing row or a failed read gives NotFound("Teacher id not found") |
| `TeacherDb.TeacherTable.Create` | actix_web/websevice/src/dbaccess/teacher.rs:37-56 | one row appended under a fresh generated id with the submitted fields; the reply is that row, and reading it back gives the reply |
| `TeacherDb.TeacherTable.Update` | actix_web/websevice/src/dbaccess/teacher.rs:58-97 | a missing id or a failed read gives NotFound("Teacher id not found") with nothing changed; a rejected write gives DBError("Update teacher failed") with nothing changed; otherwise only that row becomes the merged teacher, and the reply is the row re-read, or NotFound("Updated teacher not found") when the re-read fails after the write |
| `TeacherDb.TeacherTable.Delete` | actix_web/websevice/src/dbaccess/teacher.rs:99-104 | removes exactly the row with the id; Ok with one affected row when it existed and zero when not; a rejected statement gives DBError("Unable to delete teacher") |
| `TeacherDb.UniqueTail` | actix_web/websevice/src/dbaccess/teacher.rs:23-25 | with a unique id column, the first row's id does not occur again |
| `TeacherDb.UniqueAfterAppend` | actix_web/websevice/src/dbaccess/teacher.rs:40-48 | appending under a fresh id keeps ids unique |
| `TeacherDb.FindAfterAppend` | actix_web/websevice/src/dbaccess/teacher.rs:46-48 | re-selecting by the generated id finds exactly the inserted row |
| `TeacherDb.FindAfterReplace` | actix_web/websevice/src/dbaccess/teacher.rs:83-89 | re-selecting after the update finds the merged row, so only a failed re-read gives "Updated teacher not found" |
| `TeacherDb.ReplaceKeepsValid` | actix_web/websevice/src/dbaccess/teacher.rs:83-86 | the scoped write keeps ids unique and below the counter |
| `TeacherDb.CountIdAtMostOne` | actix_web/websevice/src/dbaccess/teacher.rs:100-101 | with unique ids a delete affects at most one row |
| `TeacherDb.WithoutKeepsUnique` | actix_web/websevice/src/dbaccess/teacher.rs:100-101 | deleting keeps the id column unique |
| `TeacherDb.DetailsAfterDelete` | actix_web/websevice/src/dbaccess/teacher.rs:99-104 | after a delete the id is not found, and every other teacher is still there |
| `TeacherDb.MergeAbsentKeeps` | actix_web/websevice/src/dbaccess/teacher.rs:64-81 | an update with every field absent leaves the teacher identical |
| `TeacherDb.MergeIdempotent` | actix_web/websevice/src/dbaccess/teacher.rs:64-81 | merging the same update twice gives the same teacher as merging it once |
| `TeacherDb.MergeComposes` | actix_web/websevice/src/dbaccess/teacher.rs:64-81 | two successive updates equal one whose present fields are the later update's, else the earlier's |
| `TeacherDb.MissingTeacherIs404` | actix_web/websevice/src/dbaccess/teacher.rs:22-35 | a missing id is answered with status 404 and body "Teacher id not found" |
| `CourseDb.UniqueAfterAppend` | actix_web/websevice/src/dbaccess/course.rs:42-54 | appending under a fresh id keeps ids unique |
| `CourseDb.UniqueTail` | actix_web/websevice/src/dbaccess/course.rs:70-74 | with a unique id column, the first row's id does not occur again |
| `CourseDb.UniqueCons` | actix_web/websevice/src/dbaccess/course.rs:70-74 | a row whose id is not among the kept rows can head them without breaking id uniqueness |
| `TeacherDb.UniqueCons` | actix_web/websevice/src/dbaccess/teacher.rs:100-101 | a row whose id is not among the kept rows can head them without breaking id uniqueness |

## Left out

- The HTTP handlers, the route table, the server bootstrap and the shared application state. They are glue around one data-access call, or they configure the process. The state also holds a lock-guarded counter and a connection pool, which is concurrency and a foreign resource.
- The conversion of a malformed JSON body into `InvalidInput` happens in the JSON error hook that the server bootstrap installs. That file is not part of this model. `InvalidInput` appears only as a variant of the taxonomy.
- The two `Display` implementations format the error into itself and would never terminate, so they are not modelled. Neither is the `println!` logging.
- Every SQL statement reached through `?` is assumed to succeed, so its `DBError` conversion path is not taken in the model. Only failures that the code remaps itself are modelled: missing rows, and the fault inputs listed above.
- `CourseDb.FirstNamed`: compares names with exact string equality. Under a case- or accent-insensitive collation, `WHERE name = ?` also matches names that differ in case, accents or trailing spaces. The column's collation belongs to the schema, which is not part of this model. So `CourseDb.CourseTable.Create`'s promise that the reply carries exactly the submitted name holds only under a binary collation.
- Foreign-key enforcement between `course.teacher_id` and `teacher.id` belongs to the database schema, which is not part of this model. Courses may therefore name any teacher id.
- The race between an insert and its read-back under concurrent requests is left out: the model runs one request at a time.
- `CourseDb.CourseTable.Delete`: returns the affected-row count, not the confirmation text. That text is the debug rendering of the driver's query result, a foreign type.
- `TeacherDb.TeacherTable.Delete`: returns the affected-row count, not the confirmation text, for the same reason.
- The 32-bit width of ids and of the course duration is not modelled. Ids are unbounded integers, so the auto-increment counter never runs out.
- Price and time are opaque values. The model only copies them; any numeric or calendar semantics is left out.
- The records' own definitions (the models module) are not part of this model. Their fields are taken from the column lists of the INSERT/UPDATE statements and from the struct literals in the data-access code.
