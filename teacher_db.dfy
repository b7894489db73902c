/**
 * Data access for the `teacher` table. The table is a sequence of rows in
 * storage order, keyed by a generated id.
 */
module TeacherDb {

  import opened Wrappers
  import opened Models
  import opened ServiceErrors

  const NO_TEACHERS := "No teachers found"
  const TEACHER_NOT_FOUND := "Teacher id not found"
  const UPDATE_FAILED := "Update teacher failed"
  const UPDATED_NOT_FOUND := "Updated teacher not found"
  const DELETE_FAILED := "Unable to delete teacher"

  /** `id` is the table's primary key. */
  predicate UniqueIds(rows: seq<Teacher>)
  {
    forall i, j :: 0 <= i < j < |rows| ==> rows[i].id != rows[j].id
  }

  /** `SELECT * FROM teacher WHERE id = ?`: the row with that id, if any. */
  function Find(rows: seq<Teacher>, id: int): (r: Option<Teacher>)
    ensures r.Some? ==> r.value in rows && r.value.id == id
    ensures r.None? ==> forall t :: t in rows ==> t.id != id
  {
    if rows == [] then None
    else if rows[0].id == id then Some(rows[0])
    else Find(rows[1..], id)
  }

  /** The number of rows with that id. */
  function CountId(rows: seq<Teacher>, id: int): (n: nat)
    ensures n <= |rows|
    ensures n == 0 <==> forall t :: t in rows ==> t.id != id
  {
    if rows == [] then 0
    else (if rows[0].id == id then 1 else 0) + CountId(rows[1..], id)
  }

  /** `DELETE FROM teacher WHERE id = ?`: every other row, in order. */
  function Without(rows: seq<Teacher>, id: int): (r: seq<Teacher>)
    ensures forall t :: t in r <==> t in rows && t.id != id
    ensures forall t :: multiset(r)[t] == if t.id == id then 0 else multiset(rows)[t]
    ensures |r| == |rows| - CountId(rows, id)
  {
    if rows == [] then []
    else
      assert rows == [rows[0]] + rows[1..];
      if rows[0].id == id then Without(rows[1..], id)
      else [rows[0]] + Without(rows[1..], id)
  }

  /** `UPDATE teacher SET ... WHERE id = ?`: the row with `t`'s id becomes `t`, the others stay. */
  function Replace(rows: seq<Teacher>, t: Teacher): (r: seq<Teacher>)
    ensures |r| == |rows|
    ensures forall i :: 0 <= i < |rows| ==> r[i].id == rows[i].id
    ensures forall i :: 0 <= i < |rows| && rows[i].id == t.id ==> r[i] == t
    ensures forall i :: 0 <= i < |rows| && rows[i].id != t.id ==> r[i] == rows[i]
  {
    if rows == [] then []
    else [if rows[0].id == t.id then t else rows[0]] + Replace(rows[1..], t)
  }

  /** The teacher the update computes: each field as provided, else as stored; the id is kept. */
  function Merge(row: Teacher, u: UpdateTeacher): (t: Teacher)
    ensures t.id == row.id
    ensures Merged(u.name, Some(row.name), Some(t.name))
    ensures Merged(u.pictureUrl, Some(row.pictureUrl), Some(t.pictureUrl))
    ensures Merged(u.profile, Some(row.profile), Some(t.profile))
  {
    Teacher(row.id, Or(u.name, row.name), Or(u.pictureUrl, row.pictureUrl), Or(u.profile, row.profile))
  }

  class TeacherTable {

    var rows: seq<Teacher>
    /** The next value of the table's auto-increment counter. */
    var nextId: int

    ghost predicate Valid()
      reads this
    {
      UniqueIds(rows) && forall t :: t in rows ==> t.id < nextId
    }

    constructor ()
      ensures Valid() && rows == [] && nextId == 1
    {
      rows := [];
      nextId := 1;
    }

    /** get_all_teachers_db: every row, copied field by field; an empty table is NotFound. */
    function All(): (r: Result<seq<Teacher>>)
      reads this
      ensures r.Err? <==> |rows| == 0
      ensures r.Err? ==> r.error == NotFound(NO_TEACHERS)
      ensures r.Ok? ==> |r.value| == |rows| && forall i :: 0 <= i < |rows| ==> r.value[i] == rows[i]
    {
      var fetched := rows;
      var teachers := seq(|fetched|, i requires 0 <= i < |fetched| =>
        Teacher(fetched[i].id, fetched[i].name, fetched[i].pictureUrl, fetched[i].profile));
      if |teachers| == 0 then Err(NotFound(NO_TEACHERS)) else Ok(teachers)
    }

    /**
     * get_teacher_details_db: the row with that id. Every failure of the fetch
     * becomes NotFound: a missing row, or a read the database fails (`readFault`).
     */
    function Details(id: int, readFault: bool): (r: Result<Teacher>)
      reads this
      ensures r.Ok? <==> !readFault && exists t :: t in rows && t.id == id
      ensures r.Ok? ==> r.value in rows && r.value.id == id
      ensures r.Err? ==> r.error == NotFound(TEACHER_NOT_FOUND)
    {
      if readFault then Err(NotFound(TEACHER_NOT_FOUND))
      else match Find(rows, id)
        case Some(t) => Ok(t)
        case None => Err(NotFound(TEACHER_NOT_FOUND))
    }

    /** post_new_teacher_db: insert under a fresh id, then read the row back by that id. */
    method Create(nt: CreateTeacher) returns (r: Result<Teacher>)
      requires Valid()
      modifies this
      ensures Valid()
      ensures nextId == old(nextId) + 1
      ensures r == Ok(Teacher(old(nextId), nt.name, nt.pictureUrl, nt.profile))
      ensures forall t :: t in old(rows) ==> t.id != r.value.id
      ensures rows == old(rows) + [r.value]
      ensures Details(r.value.id, false) == r
    {
      var id := nextId;
      var row := Teacher(id, nt.name, nt.pictureUrl, nt.profile);
      UniqueAfterAppend(rows, row);
      FindAfterAppend(rows, row);
      rows := rows + [row];
      nextId := nextId + 1;
      var reread := Find(rows, id);
      r := Ok(reread.value);
    }

    /**
     * update_teacher_details_db: read the row, merge the update into it, write
     * it back under its id, and return the row read again. The three faults say
     * whether the database fails the first read, rejects the UPDATE, or fails
     * the re-read; each is remapped to the error the source gives it.
     */
    method Update(id: int, u: UpdateTeacher, readFault: bool, writeFault: bool, rereadFault: bool)
      returns (r: Result<Teacher>)
      requires Valid()
      modifies this
      ensures Valid()
      ensures nextId == old(nextId)
      ensures old(Details(id, readFault)).Err? ==> r == Err(NotFound(TEACHER_NOT_FOUND)) && rows == old(rows)
      ensures old(Details(id, readFault)).Ok? && writeFault ==> r == Err(DBError(UPDATE_FAILED)) && rows == old(rows)
      ensures old(Details(id, readFault)).Ok? && !writeFault ==>
                && rows == Replace(old(rows), Merge(old(Details(id, readFault)).value, u))
                && Details(id, false) == Ok(Merge(old(Details(id, readFault)).value, u))
      ensures old(Details(id, readFault)).Ok? && !writeFault && rereadFault ==>
                r == Err(NotFound(UPDATED_NOT_FOUND))
      ensures old(Details(id, readFault)).Ok? && !writeFault && !rereadFault ==>
                r == Ok(Merge(old(Details(id, readFault)).value, u))
    {
      var found := Find(rows, id);
      if readFault || found.None? {
        r := Err(NotFound(TEACHER_NOT_FOUND));
        return;
      }
      var row := found.value;
      var temp := Merge(row, u);
      if writeFault {
        r := Err(DBError(UPDATE_FAILED));
        return;
      }
      ReplaceKeepsValid(rows, temp, nextId);
      FindAfterReplace(rows, temp);
      rows := Replace(rows, temp);
      // The write has happened; a failed re-read still answers NotFound.
      if rereadFault {
        r := Err(NotFound(UPDATED_NOT_FOUND));
        return;
      }
      var reread := Find(rows, row.id);
      r := Ok(reread.value);
    }

    /**
     * delete_teacher_db: remove the row with that id; succeeds whether or not it existed.
     * `dbFault` says whether the database rejects the DELETE statement.
     */
    method Delete(id: int, dbFault: bool) returns (r: Result<Deleted>)
      requires Valid()
      modifies this
      ensures Valid()
      ensures nextId == old(nextId)
      ensures dbFault ==> r == Err(DBError(DELETE_FAILED)) && rows == old(rows)
      ensures !dbFault ==> rows == Without(old(rows), id)
      ensures !dbFault ==> r == Ok(Deleted(if old(Details(id, false)).Ok? then 1 else 0))
    {
      if dbFault {
        r := Err(DBError(DELETE_FAILED));
        return;
      }
      var affected := CountId(rows, id);
      CountIdAtMostOne(rows, id);
      assert affected == if Details(id, false).Ok? then 1 else 0;
      WithoutKeepsUnique(rows, id);
      var kept := Without(rows, id);
      assert forall t :: t in kept ==> t in rows;
      rows := kept;
      r := Ok(Deleted(affected));
    }
  }

  lemma {:induction false} UniqueTail(rows: seq<Teacher>)
    requires rows != [] && UniqueIds(rows)
    ensures UniqueIds(rows[1..])
    ensures forall t :: t in rows[1..] ==> t.id != rows[0].id
  {
    var tail := rows[1..];
    forall i, j | 0 <= i < j < |tail| ensures tail[i].id != tail[j].id {
      assert tail[i] == rows[i + 1] && tail[j] == rows[j + 1];
    }
    forall t | t in tail ensures t.id != rows[0].id {
      var k :| 0 <= k < |tail| && tail[k] == t;
      assert rows[k + 1] == t;
    }
  }

  lemma {:induction false} UniqueAfterAppend(rows: seq<Teacher>, t: Teacher)
    requires UniqueIds(rows)
    requires forall d :: d in rows ==> d.id != t.id
    ensures UniqueIds(rows + [t])
  {
    var s := rows + [t];
    forall i, j | 0 <= i < j < |s| ensures s[i].id != s[j].id {
      if j == |rows| {
        assert s[i] in rows;
      } else {
        assert s[i] == rows[i] && s[j] == rows[j];
      }
    }
  }

  /** After a create, reading back by the fresh id finds exactly the inserted row. */
  lemma {:induction false} FindAfterAppend(rows: seq<Teacher>, t: Teacher)
    requires forall d :: d in rows ==> d.id != t.id
    ensures Find(rows + [t], t.id) == Some(t)
  {
    if rows != [] {
      assert (rows + [t])[1..] == rows[1..] + [t];
      assert rows[0] in rows;
      FindAfterAppend(rows[1..], t);
    }
  }

  /** After an update, reading back by the id finds the merged row. */
  lemma {:induction false} FindAfterReplace(rows: seq<Teacher>, t: Teacher)
    requires Find(rows, t.id).Some?
    ensures Find(Replace(rows, t), t.id) == Some(t)
  {
    if rows[0].id != t.id {
      FindAfterReplace(rows[1..], t);
      assert Replace(rows, t)[1..] == Replace(rows[1..], t);
    }
  }

  lemma ReplaceKeepsValid(rows: seq<Teacher>, t: Teacher, nextId: int)
    requires UniqueIds(rows) && forall d :: d in rows ==> d.id < nextId
    ensures UniqueIds(Replace(rows, t)) && forall d :: d in Replace(rows, t) ==> d.id < nextId
  {
    var w := Replace(rows, t);
    forall d | d in w ensures d.id < nextId {
      var i :| 0 <= i < |w| && w[i] == d;
      assert rows[i] in rows;
    }
  }

  /** With a unique id column, a delete affects at most one row. */
  lemma {:induction false} CountIdAtMostOne(rows: seq<Teacher>, id: int)
    requires UniqueIds(rows)
    ensures CountId(rows, id) <= 1
  {
    if rows != [] {
      UniqueTail(rows);
      CountIdAtMostOne(rows[1..], id);
    }
  }

  lemma UniqueCons(h: Teacher, s: seq<Teacher>)
    requires UniqueIds(s)
    requires forall c :: c in s ==> c.id != h.id
    ensures UniqueIds([h] + s)
  {
    var hs := [h] + s;
    forall i, j | 0 <= i < j < |hs| ensures hs[i].id != hs[j].id {
      assert hs[j] == s[j - 1];
      if i > 0 {
        assert hs[i] == s[i - 1];
      }
    }
  }

  lemma {:induction false} WithoutKeepsUnique(rows: seq<Teacher>, id: int)
    requires UniqueIds(rows)
    ensures UniqueIds(Without(rows, id))
  {
    if rows != [] {
      UniqueTail(rows);
      WithoutKeepsUnique(rows[1..], id);
      if !(rows[0].id == id) {
        var rest := Without(rows[1..], id);
        assert forall c :: c in rest ==> c in rows[1..];
        UniqueCons(rows[0], rest);
      }
    }
  }

  /** After a delete, a details request for that id fails with NotFound. */
  lemma DetailsAfterDelete(rows: seq<Teacher>, id: int)
    ensures Find(Without(rows, id), id) == None
    ensures forall t :: t in rows && t.id != id ==> t in Without(rows, id)
  {
  }

  /** An update with every field absent leaves the teacher as stored. */
  lemma MergeAbsentKeeps(row: Teacher)
    ensures Merge(row, UpdateTeacher(None, None, None)) == row
  {
  }

  /** Applying the same update twice gives the same teacher as applying it once. */
  lemma MergeIdempotent(row: Teacher, u: UpdateTeacher)
    ensures Merge(Merge(row, u), u) == Merge(row, u)
  {
  }

  /** Two updates in a row act as one update whose present fields are the later ones, else the earlier. */
  lemma MergeComposes(row: Teacher, u1: UpdateTeacher, u2: UpdateTeacher)
    ensures Merge(Merge(row, u1), u2)
            == Merge(row, UpdateTeacher(OrElse(u2.name, u1.name), OrElse(u2.pictureUrl, u1.pictureUrl),
                                        OrElse(u2.profile, u1.profile)))
  {
  }

  /** A details request for a missing id is answered 404 with the teacher message. */
  lemma MissingTeacherIs404(rows: seq<Teacher>, id: int)
    requires forall t :: t in rows ==> t.id != id
    ensures Find(rows, id) == None
    ensures ErrorResponse(NotFound(TEACHER_NOT_FOUND)) == HttpResponse(NOT_FOUND, ErrorBody(TEACHER_NOT_FOUND))
  {
  }
}
