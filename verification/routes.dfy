/**
 * The single-record routes of the attendance blueprint: list with filters,
 * get, create, update and delete by primary key.
 */
module AttendanceRoutes {
  import opened Wrappers
  import opened AttendanceModel
  import BulkUpsert

  /* ---------------------------------------------------------------- lookup by key */

  /**
   * `Attendance.query.get_or_404(id)` as the routes actually behave: the 404 it
   * raises is itself an exception, so the route's catch-all handler turns it
   * into a 500 reply.
   */
  function LookupAsWritten(s: Store, id: nat): (r: Result<Row, ApiError>)
    ensures r.Ok? ==> r.value in s.rows && r.value.id == id
    ensures r.Err? ==> r.error == ServerError
    ensures r.Err? <==> forall j :: 0 <= j < |s.rows| ==> s.rows[j].id != id
  {
    match FindId(s.rows, id)
    case Some(i) => Ok(s.rows[i])
    case None => Err(ServerError)
  }

  /** A missing key is reported as a server error by the routes as written. */
  lemma MissingKeyIsServerErrorAsWritten(s: Store, id: nat)
    requires forall j :: 0 <= j < |s.rows| ==> s.rows[j].id != id
    ensures LookupAsWritten(s, id) == Err(ServerError)
    ensures LookupAsWritten(s, id) != Err(NotFound(AttendanceEntity))
  {
  }

  /** `get_or_404` as intended: a missing key is a 404 for the attendance record. */
  function Lookup(s: Store, id: nat): (r: Result<Row, ApiError>)
    ensures r.Ok? ==> r.value in s.rows && r.value.id == id
    ensures r.Err? ==> r.error == NotFound(AttendanceEntity)
    ensures r.Err? <==> forall j :: 0 <= j < |s.rows| ==> s.rows[j].id != id
  {
    match FindId(s.rows, id)
    case Some(i) => Ok(s.rows[i])
    case None => Err(NotFound(AttendanceEntity))
  }

  /** With distinct keys, the lookup finds the one row holding the key. */
  lemma LookupFindsTheRow(s: Store, id: nat, i: int)
    requires WellFormed(s)
    requires 0 <= i < |s.rows| && s.rows[i].id == id
    ensures Lookup(s, id) == Ok(s.rows[i])
  {
  }

  /** `get_attendance`. */
  function Get(s: Store, id: nat): (r: Result<Row, ApiError>)
    ensures r.Ok? <==> exists j :: 0 <= j < |s.rows| && s.rows[j].id == id
    ensures r.Ok? ==> r.value in s.rows && r.value.id == id
    ensures r.Err? ==> r.error == NotFound(AttendanceEntity)
  {
    Lookup(s, id)
  }

  /* ---------------------------------------------------------------- list */

  /** The query string; `studentId`/`classId` are `None` when absent or not an integer. */
  datatype ListQuery = ListQuery(studentId: Option<int>, classId: Option<int>, date: Option<string>)

  /** The rows of `s` satisfying `p`, in table order. */
  function Filter(s: seq<Row>, p: Row -> bool): (r: seq<Row>)
    ensures |r| <= |s|
    ensures forall x :: x in r <==> x in s && p(x)
    decreases |s|
  {
    if |s| == 0 then []
    else
      assert s == [s[0]] + s[1..];
      (if p(s[0]) then [s[0]] else []) + Filter(s[1..], p)
  }

  /**
   * `get_attendances`: the rows matching every filter given. A filter whose
   * value is falsy (an id of 0, an empty date string) is no filter.
   */
  function List(s: Store, q: ListQuery, parse: string -> Option<Date>): (r: Result<seq<Row>, ApiError>)
    ensures r.Err? <==> q.date.Some? && q.date.value != "" && parse(q.date.value).None?
    ensures r.Err? ==> r.error == InvalidDate
    ensures r.Ok? ==> |r.value| <= |s.rows|
    ensures r.Ok? ==> forall row :: row in r.value <==>
              && row in s.rows
              && (q.studentId.Some? && q.studentId.value != 0 ==> row.rec.studentId == q.studentId.value)
              && (q.classId.Some? && q.classId.value != 0 ==> row.rec.classId == q.classId.value)
              && (q.date.Some? && q.date.value != "" ==> parse(q.date.value) == Some(row.rec.date))
  {
    var byStudent := if q.studentId.Some? && q.studentId.value != 0
      then Filter(s.rows, (row: Row) => row.rec.studentId == q.studentId.value)
      else s.rows;
    var byClass := if q.classId.Some? && q.classId.value != 0
      then Filter(byStudent, (row: Row) => row.rec.classId == q.classId.value)
      else byStudent;
    if q.date.Some? && q.date.value != "" then
      match parse(q.date.value)
      case None => Err(InvalidDate)
      case Some(d) => Ok(Filter(byClass, (row: Row) => row.rec.date == d))
    else Ok(byClass)
  }

  /** With no filter at all the whole table is listed. */
  lemma ListWithoutFiltersIsTheTable(s: Store, parse: string -> Option<Date>)
    ensures List(s, ListQuery(None, None, None), parse) == Ok(s.rows)
    ensures List(s, ListQuery(Some(0), Some(0), Some("")), parse) == Ok(s.rows)
  {
  }

  /* ---------------------------------------------------------------- create */

  /** The body of a single create; a field is `None` when its key is absent. */
  datatype CreateRequest = CreateRequest(
    studentId: Option<int>,
    classId: Option<int>,
    date: Option<string>,
    present: Option<bool>,
    notes: Option<string>)

  /** The request names a known student and class, a parseable day, and a triple with no record yet. */
  predicate CreateAdmissible(s: Store, req: CreateRequest, parse: string -> Option<Date>) {
    && req.studentId.Some?
    && req.classId.Some?
    && req.date.Some?
    && parse(req.date.value).Some?
    && req.studentId.value in s.students
    && req.classId.value in s.classes
    && NoMatch(s.rows, Triple(req.studentId.value, req.classId.value, parse(req.date.value).value))
  }

  /** `create_attendance`. A failed commit (`commitOk` false) is rolled back. */
  function Create(s: Store, req: CreateRequest, user: int, parse: string -> Option<Date>, commitOk: bool)
    : (r: (Store, Result<Row, ApiError>))
    ensures r.1.Err? ==> r.0 == s
    ensures r.1.Ok? <==> CreateAdmissible(s, req, parse) && commitOk
    ensures r.1.Ok? ==>
              && r.0.rows == s.rows + [r.1.value]
              && r.1.value.id == s.nextId
              && r.0.nextId == s.nextId + 1
              && r.1.value.rec.Key() == Triple(req.studentId.value, req.classId.value, parse(req.date.value).value)
              && r.1.value.rec.present == req.present.GetOr(true)
              && r.1.value.rec.notes == req.notes
              && r.1.value.rec.recordedBy == user
    ensures r.0.students == s.students && r.0.classes == s.classes
    ensures WellFormed(s) ==> WellFormed(r.0)
    ensures Unique(s.rows) ==> Unique(r.0.rows)
  {
    if req.studentId.None? then (s, Err(MissingField("student_id")))
    else if req.classId.None? then (s, Err(MissingField("class_id")))
    else if req.date.None? then (s, Err(MissingField("date")))
    else
      match parse(req.date.value)
      case None => (s, Err(InvalidDate))
      case Some(d) =>
        if req.studentId.value !in s.students then (s, Err(NotFound(StudentEntity)))
        else if req.classId.value !in s.classes then (s, Err(NotFound(ClassEntity)))
        else if FindFirst(s.rows, Triple(req.studentId.value, req.classId.value, d)).Some? then (s, Err(AlreadyExists))
        else if !commitOk then (s, Err(ServerError))
        else
          var row := Row(s.nextId, Attendance(req.studentId.value, req.classId.value, d,
                                              req.present.GetOr(true), req.notes, user));
          (s.(rows := s.rows + [row], nextId := s.nextId + 1), Ok(row))
  }

  /**
   * Which error a refused create gets: missing field (`student_id`, then
   * `class_id`, then `date`), day format, student existence, class existence,
   * duplicate triple, commit; the first check that fails decides the reply.
   */
  lemma CreateErrors(s: Store, req: CreateRequest, user: int, parse: string -> Option<Date>, commitOk: bool)
    ensures var r := Create(s, req, user, parse, commitOk).1;
      && (r == Err(MissingField("student_id")) <==> req.studentId.None?)
      && (r == Err(MissingField("class_id")) <==> req.studentId.Some? && req.classId.None?)
      && (r == Err(MissingField("date")) <==> req.studentId.Some? && req.classId.Some? && req.date.None?)
      && (r == Err(InvalidDate) <==>
            req.studentId.Some? && req.classId.Some? && req.date.Some? && parse(req.date.value).None?)
      && (r == Err(NotFound(StudentEntity)) <==>
            && req.studentId.Some? && req.classId.Some? && req.date.Some? && parse(req.date.value).Some?
            && req.studentId.value !in s.students)
      && (r == Err(NotFound(ClassEntity)) <==>
            && req.studentId.Some? && req.classId.Some? && req.date.Some? && parse(req.date.value).Some?
            && req.studentId.value in s.students && req.classId.value !in s.classes)
      && (r == Err(AlreadyExists) <==>
            && req.studentId.Some? && req.classId.Some? && req.date.Some? && parse(req.date.value).Some?
            && req.studentId.value in s.students && req.classId.value in s.classes
            && !NoMatch(s.rows, Triple(req.studentId.value, req.classId.value, parse(req.date.value).value)))
  {
  }

  /** Once a create succeeds, the same request is refused as a duplicate and changes nothing. */
  lemma CreateTwiceIsRefused(s: Store, req: CreateRequest, user: int, parse: string -> Option<Date>, commitOk: bool)
    requires Create(s, req, user, parse, true).1.Ok?
    ensures var s1 := Create(s, req, user, parse, true).0;
      Create(s1, req, user, parse, commitOk) == (s1, Err(AlreadyExists))
  {
    var s1 := Create(s, req, user, parse, true).0;
    var t := Triple(req.studentId.value, req.classId.value, parse(req.date.value).value);
    assert s1.rows[|s.rows|].rec.Key() == t;
  }

  /* ---------------------------------------------------------------- update */

  /** The body of an update. `notes` is `Some(None)` when the key is given as null. */
  datatype UpdateRequest = UpdateRequest(present: Option<bool>, notes: Option<Option<string>>)

  /** The record after an update: the fields given, and the acting user as recorder. */
  function Amend(rec: Attendance, req: UpdateRequest, user: int): Attendance {
    var rec := if req.present.Some? then rec.(present := req.present.value) else rec;
    var rec := if req.notes.Some? then rec.(notes := req.notes.value) else rec;
    rec.(recordedBy := user)
  }

  /** `update_attendance`: only the fields given change, and `recorded_by` always does. */
  function Update(s: Store, id: nat, req: UpdateRequest, user: int, commitOk: bool)
    : (r: (Store, Result<Row, ApiError>))
    ensures r.1.Err? ==> r.0 == s
    ensures r.1.Ok? <==> (exists j :: 0 <= j < |s.rows| && s.rows[j].id == id) && commitOk
    ensures r.1.Err? && r.1.error == NotFound(AttendanceEntity) <==> forall j :: 0 <= j < |s.rows| ==> s.rows[j].id != id
    ensures r.1.Ok? ==>
              && FindId(s.rows, id).Some?
              && var i := FindId(s.rows, id).value;
              && r.0.rows == s.rows[i := r.1.value]
              && r.1.value.id == id
              && r.1.value.rec.Key() == s.rows[i].rec.Key()
              && r.1.value.rec.present == req.present.GetOr(s.rows[i].rec.present)
              && r.1.value.rec.notes == req.notes.GetOr(s.rows[i].rec.notes)
              && r.1.value.rec.recordedBy == user
    ensures r.0.students == s.students && r.0.classes == s.classes && r.0.nextId == s.nextId
    ensures WellFormed(s) ==> WellFormed(r.0)
    ensures Unique(s.rows) ==> Unique(r.0.rows)
  {
    match Lookup(s, id)
    case Err(e) => (s, Err(e))
    case Ok(row) =>
      var i := FindId(s.rows, id).value;
      var updated := Row(row.id, Amend(row.rec, req, user));
      if !commitOk then (s, Err(ServerError))
      else (s.(rows := s.rows[i := updated]), Ok(updated))
  }

  /** With distinct keys, an update touches the row with that key and no other. */
  lemma UpdateTouchesOnlyThatRow(s: Store, id: nat, req: UpdateRequest, user: int)
    requires WellFormed(s)
    ensures var (s', r) := Update(s, id, req, user, true);
      forall j :: 0 <= j < |s.rows| && s.rows[j].id != id ==> s'.rows[j] == s.rows[j]
  {
  }

  /* ---------------------------------------------------------------- delete */

  /** `delete_attendance`. */
  function Delete(s: Store, id: nat, commitOk: bool): (r: (Store, Result<(), ApiError>))
    ensures r.1.Err? ==> r.0 == s
    ensures r.1.Ok? <==> (exists j :: 0 <= j < |s.rows| && s.rows[j].id == id) && commitOk
    ensures r.1.Err? && r.1.error == NotFound(AttendanceEntity) <==> forall j :: 0 <= j < |s.rows| ==> s.rows[j].id != id
    ensures r.1.Ok? ==> |r.0.rows| + 1 == |s.rows|
    ensures forall row :: row in r.0.rows ==> row in s.rows
    ensures r.0.students == s.students && r.0.classes == s.classes && r.0.nextId == s.nextId
  {
    match Lookup(s, id)
    case Err(e) => (s, Err(e))
    case Ok(_) =>
      var i := FindId(s.rows, id).value;
      if !commitOk then (s, Err(ServerError))
      else (s.(rows := RemoveAt(s.rows, i)), Ok(()))
  }

  /** With distinct keys, removing row `i` removes exactly the rows holding its key. */
  lemma RemoveAtMembers(s: Store, i: nat)
    requires WellFormed(s) && i < |s.rows|
    ensures forall row :: row in RemoveAt(s.rows, i) <==> row in s.rows && row.id != s.rows[i].id
  {
    var r := RemoveAt(s.rows, i);
    forall row | row in s.rows && row.id != s.rows[i].id
      ensures row in r
    {
      var j :| 0 <= j < |s.rows| && s.rows[j] == row;
      if j < i {
        assert r[j] == row;
      } else {
        assert r[j - 1] == row;
      }
    }
    forall row | row in r
      ensures row in s.rows && row.id != s.rows[i].id
    {
      var j :| 0 <= j < |r| && r[j] == row;
      if j >= i {
        assert r[j] == s.rows[j + 1];
      }
    }
  }

  /** With distinct keys, a delete removes the row with that key and keeps every other row. */
  lemma DeleteRemovesExactlyThatRow(s: Store, id: nat)
    requires WellFormed(s)
    ensures forall row :: row in Delete(s, id, true).0.rows <==> row in s.rows && row.id != id
  {
    match FindId(s.rows, id)
    case None =>
    case Some(i) =>
      RemoveAtMembers(s, i);
  }

  /** Removing a row keeps keys distinct, ascending and below `nextId`. */
  lemma RemoveAtKeepsWellFormed(s: Store, i: nat)
    requires WellFormed(s) && i < |s.rows|
    ensures WellFormed(s.(rows := RemoveAt(s.rows, i)))
  {
    var r := RemoveAt(s.rows, i);
    forall j, k | 0 <= j < k < |r|
      ensures r[j].id < r[k].id
    {
      if k < i {
        assert r[j] == s.rows[j] && r[k] == s.rows[k];
      } else if j < i {
        assert r[j] == s.rows[j] && r[k] == s.rows[k + 1];
      } else {
        assert r[j] == s.rows[j + 1] && r[k] == s.rows[k + 1];
      }
    }
  }

  /** Removing a row keeps the (student, class, day) triples unique. */
  lemma RemoveAtKeepsUnique(rows: seq<Row>, i: nat)
    requires Unique(rows) && i < |rows|
    ensures Unique(RemoveAt(rows, i))
  {
    var r := RemoveAt(rows, i);
    forall j, k | 0 <= j < k < |r|
      ensures r[j].rec.Key() != r[k].rec.Key()
    {
      if k < i {
        assert r[j] == rows[j] && r[k] == rows[k];
      } else if j < i {
        assert r[j] == rows[j] && r[k] == rows[k + 1];
      } else {
        assert r[j] == rows[j + 1] && r[k] == rows[k + 1];
      }
    }
  }

  /** A delete keeps keys distinct and ascending, and keeps triples unique. */
  lemma DeleteKeepsInvariants(s: Store, id: nat, commitOk: bool)
    ensures WellFormed(s) ==> WellFormed(Delete(s, id, commitOk).0)
    ensures Unique(s.rows) ==> Unique(Delete(s, id, commitOk).0.rows)
  {
    match FindId(s.rows, id)
    case None =>
    case Some(i) =>
      if WellFormed(s) {
        RemoveAtKeepsWellFormed(s, i);
      }
      if Unique(s.rows) {
        RemoveAtKeepsUnique(s.rows, i);
      }
  }

  /* ---------------------------------------------------------------- how the routes meet */

  /** Updating twice with the same body gives the store one update gives. */
  lemma UpdateIdempotent(s: Store, id: nat, req: UpdateRequest, user: int)
    ensures var s1 := Update(s, id, req, user, true).0;
      Update(s1, id, req, user, true).0 == s1
  {
    var (s1, r1) := Update(s, id, req, user, true);
    if r1.Ok? {
      var i := FindId(s.rows, id).value;
      var row := s.rows[i];
      var updated := Row(row.id, Amend(row.rec, req, user));
      assert s1.rows == s.rows[i := updated];
      assert FindId(s1.rows, id) == Some(i) by {
        assert forall j :: 0 <= j < |s.rows| ==> s1.rows[j].id == s.rows[j].id;
      }
      assert Amend(updated.rec, req, user) == updated.rec;
    }
  }

  /** With distinct keys, once a row is deleted its key is not found again. */
  lemma DeleteTwiceIsNotFound(s: Store, id: nat, commitOk: bool)
    requires WellFormed(s)
    requires Delete(s, id, true).1.Ok?
    ensures var s1 := Delete(s, id, true).0;
      Delete(s1, id, commitOk) == (s1, Err(NotFound(AttendanceEntity)))
  {
    DeleteRemovesExactlyThatRow(s, id);
  }

  /** A created record is found by its new key. */
  lemma CreatedRowIsFound(s: Store, req: CreateRequest, user: int, parse: string -> Option<Date>)
    requires WellFormed(s)
    requires Create(s, req, user, parse, true).1.Ok?
    ensures var (s1, r) := Create(s, req, user, parse, true);
      Get(s1, r.value.id) == Ok(r.value)
  {
    var (s1, r) := Create(s, req, user, parse, true);
    LookupFindsTheRow(s1, r.value.id, |s.rows|);
  }

  /**
   * The bulk route writes a record for every student it names, so a later
   * single create for one of those students, that class and that day is
   * refused as a duplicate.
   */
  lemma BulkThenCreateIsRefused(s: Store, breq: BulkUpsert.BulkRequest, creq: CreateRequest, user: int,
                                parse: string -> Option<Date>, commitOk: bool)
    requires BulkUpsert.Admissible(s, breq, parse)
    requires creq.studentId.Some? && creq.studentId.value in s.students
    requires BulkUpsert.LastFor(breq.attendances.value, creq.studentId.value).Some?
    requires creq.classId == breq.classId && creq.date == breq.date
    ensures var s1 := BulkUpsert.Bulk(s, breq, user, parse, true).0;
      Create(s1, creq, user, parse, commitOk) == (s1, Err(AlreadyExists))
  {
    var b := BulkUpsert.BatchOf(breq, user, parse);
    var t := Triple(creq.studentId.value, b.classId, b.date);
    assert BulkUpsert.Targeted(s.students, b, breq.attendances.value, t);
    BulkUpsert.BulkWritesRequested(s, breq, user, parse);
  }
}
