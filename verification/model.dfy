/**
 * The persistent state the attendance routes work on, as an immutable value:
 * the ids of the known students and classes, and the attendance table.
 */
module AttendanceModel {
  import opened Wrappers

  /** A calendar day, as produced by parsing a `YYYY-MM-DD` string. */
  datatype Date = Date(year: int, month: int, day: int)

  /** The (student, class, day) triple that identifies an attendance record to its users. */
  datatype Triple = Triple(studentId: int, classId: int, date: Date)

  /** The attributes of one attendance record; `recorded_at` is not modelled. */
  datatype Attendance = Attendance(
    studentId: int,
    classId: int,
    date: Date,
    present: bool,
    notes: Option<string>,
    recordedBy: int)
  {
    function Key(): Triple {
      Triple(studentId, classId, date)
    }
  }

  /** A table row: the synthetic primary key and the record it holds. */
  datatype Row = Row(id: nat, rec: Attendance)

  /**
   * The store. `rows` is the attendance table in table order (the order an
   * unordered query returns it in); `nextId` is the key the next insert gets.
   */
  datatype Store = Store(students: set<int>, classes: set<int>, rows: seq<Row>, nextId: nat)

  /** The errors a route reports instead of a value. */
  datatype Entity = StudentEntity | ClassEntity | AttendanceEntity

  datatype ApiError =
    | MissingField(field: string)   // 400 "<field> is required"
    | InvalidDate                   // 400 "Invalid date format. Use YYYY-MM-DD"
    | NotFound(entity: Entity)      // 404
    | AlreadyExists                 // 400 duplicate (student, class, date)
    | ServerError                   // 500, after a rollback

  /** Primary keys are distinct, in ascending table order, and below `nextId`. */
  predicate WellFormed(s: Store) {
    && (forall i :: 0 <= i < |s.rows| ==> s.rows[i].id < s.nextId)
    && (forall i, j :: 0 <= i < j < |s.rows| ==> s.rows[i].id < s.rows[j].id)
  }

  /** At most one record per (student, class, day). */
  predicate Unique(rows: seq<Row>) {
    forall i, j :: 0 <= i < j < |rows| ==> rows[i].rec.Key() != rows[j].rec.Key()
  }

  /** Row `i` is the first row of the table whose triple is `t`. */
  predicate IsFirstMatch(rows: seq<Row>, t: Triple, i: int) {
    && 0 <= i < |rows|
    && rows[i].rec.Key() == t
    && forall j :: 0 <= j < i ==> rows[j].rec.Key() != t
  }

  /** No row of the table has triple `t`. */
  predicate NoMatch(rows: seq<Row>, t: Triple) {
    forall j :: 0 <= j < |rows| ==> rows[j].rec.Key() != t
  }

  /** The position of the first element satisfying `p`, if there is one. */
  function FirstIndex<T>(s: seq<T>, p: T -> bool): (r: Option<nat>)
    ensures r.Some? ==> r.value < |s| && p(s[r.value])
    ensures r.Some? ==> forall j :: 0 <= j < r.value ==> !p(s[j])
    ensures r.None? ==> forall j :: 0 <= j < |s| ==> !p(s[j])
    decreases |s|
  {
    if |s| == 0 then None
    else if p(s[0]) then Some(0)
    else
      match FirstIndex(s[1..], p)
      case None => None
      case Some(i) => Some(i + 1)
  }

  /** The duplicate lookup: the position of the first row, in table order, with triple `t`. */
  function FindFirst(rows: seq<Row>, t: Triple): (r: Option<nat>)
    ensures r.Some? ==> IsFirstMatch(rows, t, r.value)
    ensures r.None? <==> NoMatch(rows, t)
  {
    FirstIndex(rows, (row: Row) => row.rec.Key() == t)
  }

  /** The position of the row whose primary key is `id`, if there is one. */
  function FindId(rows: seq<Row>, id: nat): (r: Option<nat>)
    ensures r.Some? ==> r.value < |rows| && rows[r.value].id == id
    ensures r.None? <==> forall j :: 0 <= j < |rows| ==> rows[j].id != id
  {
    FirstIndex(rows, (row: Row) => row.id == id)
  }

  /** The table without its row at position `i`; later rows move down by one. */
  function RemoveAt(rows: seq<Row>, i: nat): (r: seq<Row>)
    requires i < |rows|
    ensures |r| == |rows| - 1
    ensures forall j :: 0 <= j < i ==> r[j] == rows[j]
    ensures forall j :: i < j < |rows| ==> r[j - 1] == rows[j]
  {
    rows[..i] + rows[i + 1..]
  }

  /** There is only one first match, so `FindFirst` finds it. */
  lemma FindFirstIsTheFirstMatch(rows: seq<Row>, t: Triple, i: int)
    requires IsFirstMatch(rows, t, i)
    ensures FindFirst(rows, t) == Some(i)
  {
  }

  /**
   * Rewriting rows without changing any triple, and appending rows after them,
   * leaves every first match where it was.
   */
  lemma FirstMatchStable(rows: seq<Row>, rows': seq<Row>, t: Triple, i: int)
    requires |rows| <= |rows'|
    requires forall k :: 0 <= k < |rows| ==> rows'[k].rec.Key() == rows[k].rec.Key()
    requires IsFirstMatch(rows, t, i)
    ensures IsFirstMatch(rows', t, i)
  {
  }
}
