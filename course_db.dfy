/**
 * Data access for the `course` table. The table is a sequence of rows in
 * storage order; a SELECT without ORDER BY is taken to scan in that order.
 */
module CourseDb {

  import opened Wrappers
  import opened Models
  import opened ServiceErrors

  const COURSE_NOT_FOUND := "Course ID not found"

  /** The row is the one addressed by the composite key (teacher id, course id). */
  predicate IsKey(c: Course, teacherId: int, id: int)
  {
    c.teacherId == teacherId && c.id == id
  }

  /** `id` is the table's primary key. */
  predicate UniqueIds(rows: seq<Course>)
  {
    forall i, j :: 0 <= i < j < |rows| ==> rows[i].id != rows[j].id
  }

  /** The number of rows addressed by the composite key. */
  function CountKey(rows: seq<Course>, teacherId: int, id: int): (n: nat)
    ensures n <= |rows|
    ensures n == 0 <==> forall c :: c in rows ==> !IsKey(c, teacherId, id)
  {
    if rows == [] then 0
    else (if IsKey(rows[0], teacherId, id) then 1 else 0) + CountKey(rows[1..], teacherId, id)
  }

  /** `SELECT * FROM course WHERE teacher_id = ?`: the teacher's rows, in storage order. */
  function OfTeacher(rows: seq<Course>, teacherId: int): (r: seq<Course>)
    ensures forall c :: c in r <==> c in rows && c.teacherId == teacherId
    ensures forall c :: multiset(r)[c] == if c.teacherId == teacherId then multiset(rows)[c] else 0
    ensures |r| <= |rows|
  {
    if rows == [] then []
    else
      assert rows == [rows[0]] + rows[1..];
      if rows[0].teacherId == teacherId then [rows[0]] + OfTeacher(rows[1..], teacherId)
      else OfTeacher(rows[1..], teacherId)
  }

  /** `SELECT * FROM course WHERE teacher_id = ? and id = ?`: the first row with that key, if any. */
  function Lookup(rows: seq<Course>, teacherId: int, id: int): (r: Option<Course>)
    ensures r.Some? ==> r.value in rows && IsKey(r.value, teacherId, id)
    ensures r.None? ==> forall c :: c in rows ==> !IsKey(c, teacherId, id)
  {
    if rows == [] then None
    else if IsKey(rows[0], teacherId, id) then Some(rows[0])
    else Lookup(rows[1..], teacherId, id)
  }

  /** `SELECT * FROM course WHERE name = ?` read with fetch_one: the position of the first row with that name. */
  function FirstNamed(rows: seq<Course>, name: string): (r: Option<nat>)
    ensures r.Some? ==> r.value < |rows| && rows[r.value].name == name
    ensures r.Some? ==> forall j :: 0 <= j < r.value ==> rows[j].name != name
    ensures r.None? ==> forall j :: 0 <= j < |rows| ==> rows[j].name != name
  {
    if rows == [] then None
    else if rows[0].name == name then Some(0)
    else match FirstNamed(rows[1..], name)
      case None => None
      case Some(k) => Some(k + 1)
  }

  /** `DELETE FROM course WHERE teacher_id = ? and id = ?`: every other row, in order. */
  function Without(rows: seq<Course>, teacherId: int, id: int): (r: seq<Course>)
    ensures forall c :: c in r <==> c in rows && !IsKey(c, teacherId, id)
    ensures forall c :: multiset(r)[c] == if IsKey(c, teacherId, id) then 0 else multiset(rows)[c]
    ensures |r| == |rows| - CountKey(rows, teacherId, id)
  {
    if rows == [] then []
    else
      assert rows == [rows[0]] + rows[1..];
      if IsKey(rows[0], teacherId, id) then Without(rows[1..], teacherId, id)
      else [rows[0]] + Without(rows[1..], teacherId, id)
  }

  /** The row an INSERT adds: the submitted columns under a generated id and the server's time. */
  function NewRow(id: int, nc: CreateCourse, now: Timestamp): (c: Course)
    ensures c.id == id && c.teacherId == nc.teacherId && c.name == nc.name && c.time == now
    ensures c.description == nc.description && c.format == nc.format && c.structure == nc.structure
    ensures c.duration == nc.duration && c.price == nc.price
    ensures c.language == nc.language && c.level == nc.level
  {
    Course(nc.teacherId, id, nc.name, now, nc.description, nc.format, nc.structure,
           nc.duration, nc.price, nc.language, nc.level)
  }

  /** The two rows agree on every column an UPDATE of a course sets. */
  predicate SameContent(a: Course, b: Course)
  {
    && a.name == b.name && a.description == b.description && a.format == b.format
    && a.structure == b.structure && a.duration == b.duration && a.price == b.price
    && a.language == b.language && a.level == b.level
  }

  /** The course the update computes from the stored row, the path's key and the update. */
  function Merge(current: Course, teacherId: int, id: int, u: UpdateCourse): (m: Course)
    ensures m.teacherId == teacherId && m.id == id && m.time == current.time
    ensures m.name == u.name
    ensures Merged(u.description, current.description, m.description)
    ensures Merged(u.format, current.format, m.format)
    ensures Merged(u.structure, current.structure, m.structure)
    ensures Merged(u.duration, current.duration, m.duration)
    ensures Merged(u.price, current.price, m.price)
    ensures Merged(u.language, current.language, m.language)
    ensures Merged(u.level, current.level, m.level)
  {
    Course(
      teacherId, id, u.name, current.time,
      OrElse(u.description, current.description),
      OrElse(u.format, current.format),
      OrElse(u.structure, current.structure),
      OrElse(u.duration, current.duration),
      OrElse(u.price, current.price),
      OrElse(u.language, current.language),
      OrElse(u.level, current.level))
  }

  /** One row after the UPDATE's SET list: merged content, its own key and time. */
  function Overwrite(row: Course, m: Course): Course
  {
    row.(name := m.name, description := m.description, format := m.format,
         structure := m.structure, duration := m.duration, price := m.price,
         language := m.language, level := m.level)
  }

  /**
   * `UPDATE course SET name = ?, ... , level = ?` as written, with no WHERE clause:
   * every row takes the merged content and keeps its own key and time.
   */
  function WriteAll(rows: seq<Course>, m: Course): (r: seq<Course>)
    ensures |r| == |rows|
    ensures forall i :: 0 <= i < |rows| ==>
              && r[i].teacherId == rows[i].teacherId && r[i].id == rows[i].id
              && r[i].time == rows[i].time && SameContent(r[i], m)
  {
    if rows == [] then [] else [Overwrite(rows[0], m)] + WriteAll(rows[1..], m)
  }

  class CourseTable {

    var rows: seq<Course>
    /** The next value of the table's auto-increment counter. */
    var nextId: int

    ghost predicate Valid()
      reads this
    {
      UniqueIds(rows) && forall c :: c in rows ==> c.id < nextId
    }

    constructor ()
      ensures Valid() && rows == [] && nextId == 1
    {
      rows := [];
      nextId := 1;
    }

    /** get_course_for_teacher_db: the teacher's courses; an empty list is a success. */
    function ForTeacher(teacherId: int): (r: Result<seq<Course>>)
      reads this
      ensures r.Ok?
      ensures forall c :: c in r.value <==> c in rows && c.teacherId == teacherId
      ensures forall c :: multiset(r.value)[c] == if c.teacherId == teacherId then multiset(rows)[c] else 0
    {
      Ok(OfTeacher(rows, teacherId))
    }

    /** get_course_detail_db: the row with the composite key, or NotFound. */
    function Detail(teacherId: int, id: int): (r: Result<Course>)
      reads this
      ensures r.Ok? <==> exists c :: c in rows && IsKey(c, teacherId, id)
      ensures r.Ok? ==> r.value in rows && IsKey(r.value, teacherId, id)
      ensures r.Err? ==> r.error == NotFound(COURSE_NOT_FOUND)
    {
      match Lookup(rows, teacherId, id)
      case Some(c) => Ok(c)
      case None => Err(NotFound(COURSE_NOT_FOUND))
    }

    /**
     * post_new_course_db: insert the submitted course, then read back the first
     * row carrying the submitted name, which need not be the one just inserted.
     */
    method Create(nc: CreateCourse, now: Timestamp) returns (r: Result<Course>)
      requires Valid()
      modifies this
      ensures Valid()
      ensures nextId == old(nextId) + 1
      ensures rows == old(rows) + [NewRow(old(nextId), nc, now)]
      ensures forall c :: c in old(rows) ==> c.id != old(nextId)
      ensures FirstNamed(rows, nc.name).Some?
      ensures r == Ok(rows[FirstNamed(rows, nc.name).value])
      ensures r.value.name == nc.name
      ensures (forall c :: c in old(rows) ==> c.name != nc.name) ==> r.value == NewRow(old(nextId), nc, now)
      ensures (exists c :: c in old(rows) && c.name == nc.name) ==> r.value in old(rows)
      ensures Detail(nc.teacherId, old(nextId)) == Ok(NewRow(old(nextId), nc, now))
    {
      var row := NewRow(nextId, nc, now);
      rows := rows + [row];
      nextId := nextId + 1;
      UniqueAfterAppend(old(rows), row);
      FirstNamedAfterAppend(old(rows), row);
      DetailAfterCreate(old(rows), row);
      var k := FirstNamed(rows, nc.name);
      r := Ok(rows[k.value]);
    }

    /** delete_course_db: remove the row with the composite key; succeeds even when none matched. */
    method Delete(teacherId: int, id: int) returns (r: Result<Deleted>)
      requires Valid()
      modifies this
      ensures Valid()
      ensures nextId == old(nextId)
      ensures rows == Without(old(rows), teacherId, id)
      ensures r == Ok(Deleted(CountKey(old(rows), teacherId, id)))
      ensures r.value.rowsAffected <= 1
    {
      var affected := CountKey(rows, teacherId, id);
      CountKeyAtMostOne(rows, teacherId, id);
      WithoutKeepsUnique(rows, teacherId, id);
      rows := Without(rows, teacherId, id);
      r := Ok(Deleted(affected));
    }

    /**
     * update_course_db: read the stored row, merge the update into it, write
     * the merged content to EVERY row (the statement has no WHERE clause), and
     * return the merged course without reading it back. Every failure of the
     * read is NotFound: a missing key, or a read the database fails (`readFault`).
     */
    method Update(teacherId: int, id: int, u: UpdateCourse, readFault: bool) returns (r: Result<Course>)
      requires Valid()
      modifies this
      ensures Valid()
      ensures nextId == old(nextId)
      ensures readFault || old(Detail(teacherId, id)).Err? ==>
                r == Err(NotFound(COURSE_NOT_FOUND)) && rows == old(rows)
      ensures !readFault && old(Detail(teacherId, id)).Ok? ==>
                && r == Ok(Merge(old(Detail(teacherId, id)).value, teacherId, id, u))
                && rows == WriteAll(old(rows), r.value)
                && Detail(teacherId, id) == r
    {
      var found := Lookup(rows, teacherId, id);
      if readFault || found.None? {
        r := Err(NotFound(COURSE_NOT_FOUND));
        return;
      }
      var current := found.value;
      assert Detail(teacherId, id) == Ok(current);
      var merged := Merge(current, teacherId, id, u);
      LookupAfterWriteAll(rows, teacherId, id, u);
      WriteAllKeepsValid(rows, merged, nextId);
      rows := WriteAll(rows, merged);
      assert Lookup(rows, teacherId, id) == Some(merged);
      r := Ok(merged);
    }
  }

  lemma {:induction false} UniqueAfterAppend(rows: seq<Course>, c: Course)
    requires UniqueIds(rows)
    requires forall d :: d in rows ==> d.id != c.id
    ensures UniqueIds(rows + [c])
  {
    var s := rows + [c];
    forall i, j | 0 <= i < j < |s| ensures s[i].id != s[j].id {
      if j == |rows| {
        assert s[i] in rows;
      } else {
        assert s[i] == rows[i] && s[j] == rows[j];
      }
    }
  }

  /** Appending a row changes the first row with a name only when no earlier row had it. */
  lemma {:induction false} FirstNamedAfterAppend(rows: seq<Course>, c: Course)
    ensures FirstNamed(rows + [c], c.name).Some?
    ensures (exists d :: d in rows && d.name == c.name) ==>
              FirstNamed(rows + [c], c.name) == FirstNamed(rows, c.name)
    ensures (forall d :: d in rows ==> d.name != c.name) ==>
              FirstNamed(rows + [c], c.name) == Some(|rows|)
  {
    if rows != [] {
      assert (rows + [c])[1..] == rows[1..] + [c];
      FirstNamedAfterAppend(rows[1..], c);
      if rows[0].name != c.name {
        if exists d :: d in rows && d.name == c.name {
          var d :| d in rows && d.name == c.name;
          assert d in rows[1..];
        }
      }
    }
  }

  lemma {:induction false} UniqueTail(rows: seq<Course>)
    requires rows != [] && UniqueIds(rows)
    ensures UniqueIds(rows[1..])
    ensures forall c :: c in rows[1..] ==> c.id != rows[0].id
  {
    var tail := rows[1..];
    forall i, j | 0 <= i < j < |tail| ensures tail[i].id != tail[j].id {
      assert tail[i] == rows[i + 1] && tail[j] == rows[j + 1];
    }
    forall c | c in tail ensures c.id != rows[0].id {
      var k :| 0 <= k < |tail| && tail[k] == c;
      assert rows[k + 1] == c;
    }
  }

  /** With a unique id column, at most one row carries a composite key. */
  lemma {:induction false} CountKeyAtMostOne(rows: seq<Course>, teacherId: int, id: int)
    requires UniqueIds(rows)
    ensures CountKey(rows, teacherId, id) <= 1
  {
    if rows != [] {
      UniqueTail(rows);
      CountKeyAtMostOne(rows[1..], teacherId, id);
    }
  }

  lemma UniqueCons(h: Course, s: seq<Course>)
    requires UniqueIds(s)
    requires forall c :: c in s ==> c.id != h.id
    ensures UniqueIds([h] + s)
  {
    var hs := [h] + s;
    forall i, j | 0 <= i < j < |hs| ensures hs[i].id != hs[j].id {
      assert hs[j] == s[j - 1];
      if i > 0 {
        assert hs[i] == s[i - 1];
      }
    }
  }

  lemma {:induction false} WithoutKeepsUnique(rows: seq<Course>, teacherId: int, id: int)
    requires UniqueIds(rows)
    ensures UniqueIds(Without(rows, teacherId, id))
  {
    if rows != [] {
      UniqueTail(rows);
      WithoutKeepsUnique(rows[1..], teacherId, id);
      if !(IsKey(rows[0], teacherId, id)) {
        var rest := Without(rows[1..], teacherId, id);
        assert forall c :: c in rest ==> c in rows[1..];
        UniqueCons(rows[0], rest);
      }
    }
  }

  /** Deleting by a key twice is the same as deleting once. */
  lemma {:induction false} WithoutIdempotent(rows: seq<Course>, teacherId: int, id: int)
    ensures Without(Without(rows, teacherId, id), teacherId, id) == Without(rows, teacherId, id)
  {
    if rows != [] {
      WithoutIdempotent(rows[1..], teacherId, id);
      if !IsKey(rows[0], teacherId, id) {
        var rest := Without(rows[1..], teacherId, id);
        assert ([rows[0]] + rest)[1..] == rest;
      }
    }
  }

  /** After a delete, a detail request for that key fails with NotFound; no other row is lost. */
  lemma DetailAfterDelete(rows: seq<Course>, teacherId: int, id: int)
    ensures Lookup(Without(rows, teacherId, id), teacherId, id) == None
    ensures forall c :: c in rows && !IsKey(c, teacherId, id) ==> c in Without(rows, teacherId, id)
  {
  }

  /** After a create, a detail request for the new key returns exactly the inserted row. */
  lemma {:induction false} DetailAfterCreate(rows: seq<Course>, c: Course)
    requires forall d :: d in rows ==> d.id != c.id
    ensures Lookup(rows + [c], c.teacherId, c.id) == Some(c)
  {
    if rows != [] {
      assert (rows + [c])[1..] == rows[1..] + [c];
      assert rows[0] in rows;
      DetailAfterCreate(rows[1..], c);
    }
  }

  /**
   * The merged course is what a detail request reads back after the update
   * statement: the addressed row keeps its key and time and takes the merged content.
   */
  lemma {:induction false} LookupAfterWriteAll(rows: seq<Course>, teacherId: int, id: int, u: UpdateCourse)
    requires Lookup(rows, teacherId, id).Some?
    ensures Lookup(WriteAll(rows, Merge(Lookup(rows, teacherId, id).value, teacherId, id, u)), teacherId, id)
            == Some(Merge(Lookup(rows, teacherId, id).value, teacherId, id, u))
  {
    var m := Merge(Lookup(rows, teacherId, id).value, teacherId, id, u);
    if IsKey(rows[0], teacherId, id) {
      assert Overwrite(rows[0], m) == m;
    } else {
      LookupAfterWriteAll(rows[1..], teacherId, id, u);
      assert WriteAll(rows, m)[1..] == WriteAll(rows[1..], m);
    }
  }

  lemma WriteAllKeepsValid(rows: seq<Course>, m: Course, nextId: int)
    requires UniqueIds(rows) && forall c :: c in rows ==> c.id < nextId
    ensures UniqueIds(WriteAll(rows, m)) && forall c :: c in WriteAll(rows, m) ==> c.id < nextId
  {
    var w := WriteAll(rows, m);
    forall c | c in w ensures c.id < nextId {
      var i :| 0 <= i < |w| && w[i] == c;
      assert rows[i] in rows;
    }
  }

  /** An update with every optional field absent returns the stored course, renamed. */
  lemma MergeAbsentKeeps(current: Course, u: UpdateCourse)
    requires u.description.None? && u.format.None? && u.structure.None? && u.duration.None?
    requires u.price.None? && u.language.None? && u.level.None?
    ensures Merge(current, current.teacherId, current.id, u) == current.(name := u.name)
  {
  }

  /** Applying the same update twice gives the same course as applying it once. */
  lemma MergeIdempotent(current: Course, teacherId: int, id: int, u: UpdateCourse)
    ensures Merge(Merge(current, teacherId, id, u), teacherId, id, u) == Merge(current, teacherId, id, u)
  {
  }

  /**
   * Post a course whose name an older course already has: the row read back is
   * an older row, never the one just inserted.
   */
  lemma CreateMayReturnNamesake(rows: seq<Course>, n: int, nc: CreateCourse, now: Timestamp)
    requires forall d :: d in rows ==> d.id != n
    requires exists d :: d in rows && d.name == nc.name
    ensures FirstNamed(rows + [NewRow(n, nc, now)], nc.name).Some?
    ensures FirstNamed(rows + [NewRow(n, nc, now)], nc.name).value < |rows|
    ensures (rows + [NewRow(n, nc, now)])[FirstNamed(rows + [NewRow(n, nc, now)], nc.name).value] != NewRow(n, nc, now)
  {
    var c := NewRow(n, nc, now);
    FirstNamedAfterAppend(rows, c);
    var k := FirstNamed(rows, nc.name).value;
    assert (rows + [c])[k] == rows[k] && rows[k] in rows;
  }

  /** A detail request for a missing key is answered 404 with the course message. */
  lemma MissingCourseIs404(rows: seq<Course>, teacherId: int, id: int)
    requires forall c :: c in rows ==> !IsKey(c, teacherId, id)
    ensures Lookup(rows, teacherId, id) == None
    ensures ErrorResponse(NotFound(COURSE_NOT_FOUND)) == HttpResponse(NOT_FOUND, ErrorBody(COURSE_NOT_FOUND))
  {
  }
}
