/**
 * The bulk upsert route, `create_bulk_attendance`: record many students'
 * attendance for one class and day, updating a student's existing record for
 * that class and day in place and inserting one otherwise, collecting one
 * error per entry that cannot be recorded, and committing everything at once.
 */
module BulkUpsert {
  import opened Wrappers
  import opened AttendanceModel

  /**
   * One element of the request's `attendances` list. `NotAnObject` stands for
   * any JSON value that is not an object (a number, a string, a list).
   */
  datatype Entry =
    | Entry(studentId: Option<int>, present: Option<bool>, notes: Option<string>)
    | NotAnObject

  /** The request body; a field is `None` when its key is absent. */
  datatype BulkRequest = BulkRequest(classId: Option<int>, date: Option<string>, attendances: Option<seq<Entry>>)

  /** The per-entry error messages: "Student <id> not found", "Error processing student unknown: ...". */
  datatype EntryError = StudentNotFound(studentId: int) | MissingStudentId

  /** What one entry contributes to the reply. */
  datatype Outcome = Saved(rec: Attendance) | Failed(error: EntryError)

  /** The values fixed for the whole batch: class, parsed day, acting user. */
  datatype Batch = Batch(classId: int, date: Date, user: int)

  /** The successful reply: the records written (in entry order) and the per-entry errors. */
  datatype BulkReport = BulkReport(created: seq<Attendance>, errors: seq<EntryError>)

  predicate AllObjects(es: seq<Entry>) {
    forall i :: 0 <= i < |es| ==> es[i].Entry?
  }

  /** The request passes every check made before the first entry is looked at. */
  predicate Admissible(s: Store, req: BulkRequest, parse: string -> Option<Date>) {
    && req.classId.Some?
    && req.date.Some?
    && req.attendances.Some?
    && parse(req.date.value).Some?
    && req.classId.value in s.classes
    && AllObjects(req.attendances.value)
  }

  function BatchOf(req: BulkRequest, user: int, parse: string -> Option<Date>): Batch
    requires req.classId.Some? && req.date.Some? && parse(req.date.value).Some?
  {
    Batch(req.classId.value, parse(req.date.value).value, user)
  }

  /** The record an entry for student `sid` asks for: `present` defaults to true, `notes` to null. */
  function Intended(b: Batch, sid: int, e: Entry): Attendance
    requires e.Entry?
  {
    Attendance(sid, b.classId, b.date, e.present.GetOr(true), e.notes, b.user)
  }

  /** An entry that names a known student, and so gets recorded. */
  predicate Resolves(students: set<int>, e: Entry) {
    e.Entry? && e.studentId.Some? && e.studentId.value in students
  }

  /** The outcome an entry gets, judged from the entry and the known students alone. */
  function OutcomeOf(students: set<int>, b: Batch, e: Entry): Outcome
    requires e.Entry?
  {
    match e.studentId
    case None => Failed(MissingStudentId)
    case Some(sid) => if sid in students then Saved(Intended(b, sid, e)) else Failed(StudentNotFound(sid))
  }

  /**
   * One pass of the loop body. The lookup sees rows staged earlier in the same
   * batch, as the session's autoflush makes them visible to the query.
   */
  function Step(s: Store, b: Batch, e: Entry): (r: (Store, Outcome))
    requires e.Entry?
    ensures r.1 == OutcomeOf(s.students, b, e)
    ensures r.0.students == s.students && r.0.classes == s.classes
    ensures WellFormed(s) ==> WellFormed(r.0)
    ensures Unique(s.rows) ==> Unique(r.0.rows)
  {
    match e.studentId
    case None => (s, Failed(MissingStudentId))
    case Some(sid) =>
      if sid !in s.students then (s, Failed(StudentNotFound(sid)))
      else
        var rec := Intended(b, sid, e);
        match FindFirst(s.rows, rec.Key())
        case Some(i) =>
          var existing := s.rows[i].rec;
          var updated := existing.(present := rec.present, notes := rec.notes, recordedBy := b.user);
          (s.(rows := s.rows[i := Row(s.rows[i].id, updated)]), Saved(updated))
        case None =>
          (s.(rows := s.rows + [Row(s.nextId, rec)], nextId := s.nextId + 1), Saved(rec))
  }

  /** The loop over the entries, in input order; an entry's failure never stops it. */
  function Run(s: Store, b: Batch, es: seq<Entry>): (r: (Store, seq<Outcome>))
    requires AllObjects(es)
    ensures |r.1| == |es|
    ensures forall i :: 0 <= i < |es| ==> r.1[i] == OutcomeOf(s.students, b, es[i])
    ensures r.0.students == s.students && r.0.classes == s.classes
    ensures WellFormed(s) ==> WellFormed(r.0)
    ensures Unique(s.rows) ==> Unique(r.0.rows)
    decreases |es|
  {
    if |es| == 0 then (s, [])
    else
      var (s1, os) := Run(s, b, es[..|es| - 1]);
      var (s2, o) := Step(s1, b, es[|es| - 1]);
      (s2, os + [o])
  }

  function After(s: Store, b: Batch, es: seq<Entry>): Store
    requires AllObjects(es)
  {
    Run(s, b, es).0
  }

  /** Splits the outcomes into the reply's `created` and `errors` lists. */
  function Tally(os: seq<Outcome>): (rep: BulkReport)
    ensures |rep.created| + |rep.errors| == |os|
    ensures forall a :: a in rep.created <==> Saved(a) in os
    ensures forall err :: err in rep.errors <==> Failed(err) in os
    decreases |os|
  {
    if |os| == 0 then BulkReport([], [])
    else
      var rest := Tally(os[1..]);
      assert os == [os[0]] + os[1..];
      match os[0]
      case Saved(a) => BulkReport([a] + rest.created, rest.errors)
      case Failed(err) => BulkReport(rest.created, [err] + rest.errors)
  }

  /**
   * `create_bulk_attendance`: the store after the request and the reply. A
   * failed commit (`commitOk` false) rolls the whole batch back.
   */
  function Bulk(s: Store, req: BulkRequest, user: int, parse: string -> Option<Date>, commitOk: bool)
    : (r: (Store, Result<BulkReport, ApiError>))
    ensures r.1.Err? ==> r.0 == s
    ensures r.1.Ok? <==> Admissible(s, req, parse) && commitOk
    ensures r.1.Ok? ==> |r.1.value.created| + |r.1.value.errors| == |req.attendances.value|
    ensures r.0.students == s.students && r.0.classes == s.classes
    ensures WellFormed(s) ==> WellFormed(r.0)
    ensures Unique(s.rows) ==> Unique(r.0.rows)
  {
    if req.classId.None? then (s, Err(MissingField("class_id")))
    else if req.date.None? then (s, Err(MissingField("date")))
    else if req.attendances.None? then (s, Err(MissingField("attendances")))
    else
      match parse(req.date.value)
      case None => (s, Err(InvalidDate))
      case Some(d) =>
        if req.classId.value !in s.classes then (s, Err(NotFound(ClassEntity)))
        else if !AllObjects(req.attendances.value) then (s, Err(ServerError))
        else
          var (s', os) := Run(s, Batch(req.classId.value, d, user), req.attendances.value);
          if !commitOk then (s, Err(ServerError))
          else (s', Ok(Tally(os)))
  }

  /**
   * Which error a refused request gets: the checks run in the order missing
   * field (`class_id`, then `date`, then `attendances`), day format, class
   * existence, and the first one that fails decides the reply.
   */
  lemma BulkErrors(s: Store, req: BulkRequest, user: int, parse: string -> Option<Date>, commitOk: bool)
    ensures var r := Bulk(s, req, user, parse, commitOk).1;
      && (r == Err(MissingField("class_id")) <==> req.classId.None?)
      && (r == Err(MissingField("date")) <==> req.classId.Some? && req.date.None?)
      && (r == Err(MissingField("attendances")) <==> req.classId.Some? && req.date.Some? && req.attendances.None?)
      && (r == Err(InvalidDate) <==>
            req.classId.Some? && req.date.Some? && req.attendances.Some? && parse(req.date.value).None?)
      && (r == Err(NotFound(ClassEntity)) <==>
            && req.classId.Some? && req.date.Some? && req.attendances.Some? && parse(req.date.value).Some?
            && req.classId.value !in s.classes)
      && (r == Err(ServerError) <==>
            && req.classId.Some? && req.date.Some? && req.attendances.Some? && parse(req.date.value).Some?
            && req.classId.value in s.classes
            && (!AllObjects(req.attendances.value) || !commitOk))
  {
  }

  /** The last entry of the batch that names student `sid`. */
  function LastFor(es: seq<Entry>, sid: int): (r: Option<Entry>)
    ensures r.Some? ==> r.value in es && r.value.Entry? && r.value.studentId == Some(sid)
    ensures r.Some? ==>
              exists i :: 0 <= i < |es| && es[i] == r.value &&
                forall j :: i < j < |es| && es[j].Entry? ==> es[j].studentId != Some(sid)
    ensures r.None? ==> forall i :: 0 <= i < |es| && es[i].Entry? ==> es[i].studentId != Some(sid)
    decreases |es|
  {
    if |es| == 0 then None
    else if es[|es| - 1].Entry? && es[|es| - 1].studentId == Some(sid) then Some(es[|es| - 1])
    else LastFor(es[..|es| - 1], sid)
  }

  /** The batch writes the record for triple `t`: its class and day, and a known student it names. */
  predicate Targeted(students: set<int>, b: Batch, es: seq<Entry>, t: Triple) {
    && t.classId == b.classId
    && t.date == b.date
    && t.studentId in students
    && LastFor(es, t.studentId).Some?
  }

  /** The record the batch leaves for student `sid`: the one its last entry for `sid` asks for. */
  function FinalRecord(b: Batch, es: seq<Entry>, sid: int): Attendance
    requires LastFor(es, sid).Some?
  {
    Intended(b, sid, LastFor(es, sid).value)
  }

  /** The record a lookup by triple finds in the table. */
  function View(rows: seq<Row>, t: Triple): Option<Attendance> {
    match FindFirst(rows, t)
    case Some(i) => Some(rows[i].rec)
    case None => None
  }

  /** One step either leaves the store alone, rewrites the first row of the entry's triple, or appends one row. */
  lemma StepShape(s: Store, b: Batch, e: Entry)
    requires e.Entry?
    ensures !Resolves(s.students, e) ==> Step(s, b, e).0 == s
    ensures Resolves(s.students, e) ==>
              var rec := Intended(b, e.studentId.value, e);
              match FindFirst(s.rows, rec.Key())
              case Some(j) => Step(s, b, e).0 == s.(rows := s.rows[j := Row(s.rows[j].id, rec)])
              case None => Step(s, b, e).0 == s.(rows := s.rows + [Row(s.nextId, rec)], nextId := s.nextId + 1)
  {
  }

  /**
   * The batch only appends rows, with keys handed out from `nextId`, and every
   * row already there keeps its key and its triple.
   */
  lemma {:induction false} RunGrows(s: Store, b: Batch, es: seq<Entry>)
    requires AllObjects(es)
    ensures |s.rows| <= |After(s, b, es).rows|
    ensures After(s, b, es).nextId == s.nextId + (|After(s, b, es).rows| - |s.rows|)
    ensures forall i :: 0 <= i < |s.rows| ==>
              After(s, b, es).rows[i].id == s.rows[i].id && After(s, b, es).rows[i].rec.Key() == s.rows[i].rec.Key()
    ensures forall i :: |s.rows| <= i < |After(s, b, es).rows| ==> After(s, b, es).rows[i].id == s.nextId + (i - |s.rows|)
    decreases |es|
  {
    if |es| > 0 {
      var pre, e := es[..|es| - 1], es[|es| - 1];
      RunGrows(s, b, pre);
      StepShape(After(s, b, pre), b, e);
      assert After(s, b, es) == Step(After(s, b, pre), b, e).0;
    }
  }

  /** A row already in the table changes only when it is the first row of a triple the batch writes. */
  lemma {:induction false} RunChangesOnlyFirstMatches(s: Store, b: Batch, es: seq<Entry>)
    requires AllObjects(es)
    ensures |s.rows| <= |After(s, b, es).rows|
    ensures forall i :: 0 <= i < |s.rows| && After(s, b, es).rows[i] != s.rows[i] ==>
              Targeted(s.students, b, es, s.rows[i].rec.Key()) && IsFirstMatch(s.rows, s.rows[i].rec.Key(), i)
    decreases |es|
  {
    if |es| > 0 {
      var pre, e := es[..|es| - 1], es[|es| - 1];
      RunChangesOnlyFirstMatches(s, b, pre);
      RunGrows(s, b, pre);
      var s1 := After(s, b, pre);
      var s2 := After(s, b, es);
      assert s2 == Step(s1, b, e).0;
      StepShape(s1, b, e);
      assert forall t :: Targeted(s.students, b, pre, t) ==> Targeted(s.students, b, es, t);
      if Resolves(s.students, e) {
        var sid := e.studentId.value;
        var k := Intended(b, sid, e).Key();
        assert LastFor(es, sid) == Some(e);
        match FindFirst(s1.rows, k)
        case Some(j) =>
          if j < |s.rows| {
            assert IsFirstMatch(s.rows, k, j);
          }
        case None =>
      }
    }
  }

  /** A row the batch appends is for a triple it writes that had no row before. */
  lemma {:induction false} RunAppendsOnlyNewTriples(s: Store, b: Batch, es: seq<Entry>)
    requires AllObjects(es)
    ensures |s.rows| <= |After(s, b, es).rows|
    ensures forall i :: |s.rows| <= i < |After(s, b, es).rows| ==>
              Targeted(s.students, b, es, After(s, b, es).rows[i].rec.Key())
              && NoMatch(s.rows, After(s, b, es).rows[i].rec.Key())
    decreases |es|
  {
    if |es| > 0 {
      var pre, e := es[..|es| - 1], es[|es| - 1];
      RunAppendsOnlyNewTriples(s, b, pre);
      RunGrows(s, b, pre);
      var s1 := After(s, b, pre);
      var s2 := After(s, b, es);
      assert s2 == Step(s1, b, e).0;
      StepShape(s1, b, e);
      assert forall t :: Targeted(s.students, b, pre, t) ==> Targeted(s.students, b, es, t);
      if Resolves(s.students, e) {
        var sid := e.studentId.value;
        var k := Intended(b, sid, e).Key();
        assert LastFor(es, sid) == Some(e);
        match FindFirst(s1.rows, k)
        case Some(j) =>
          assert forall i :: |s.rows| <= i < |s2.rows| ==> s2.rows[i].rec.Key() == s1.rows[i].rec.Key();
        case None =>
          assert NoMatch(s.rows, k);
      }
    }
  }

  /** The three facts above together. */
  lemma RunFrame(s: Store, b: Batch, es: seq<Entry>)
    requires AllObjects(es)
    ensures |s.rows| <= |After(s, b, es).rows|
    ensures After(s, b, es).nextId == s.nextId + (|After(s, b, es).rows| - |s.rows|)
    ensures forall i :: 0 <= i < |s.rows| ==>
              After(s, b, es).rows[i].id == s.rows[i].id && After(s, b, es).rows[i].rec.Key() == s.rows[i].rec.Key()
    ensures forall i :: 0 <= i < |s.rows| && After(s, b, es).rows[i] != s.rows[i] ==>
              Targeted(s.students, b, es, s.rows[i].rec.Key()) && IsFirstMatch(s.rows, s.rows[i].rec.Key(), i)
    ensures forall i :: |s.rows| <= i < |After(s, b, es).rows| ==>
              && After(s, b, es).rows[i].id == s.nextId + (i - |s.rows|)
              && Targeted(s.students, b, es, After(s, b, es).rows[i].rec.Key())
              && NoMatch(s.rows, After(s, b, es).rows[i].rec.Key())
  {
    RunGrows(s, b, es);
    RunChangesOnlyFirstMatches(s, b, es);
    RunAppendsOnlyNewTriples(s, b, es);
  }

  /**
   * After the batch, the lookup by triple finds, for every triple the batch
   * writes, the record the last entry for that student asks for.
   */
  lemma {:induction false} RunSettlesAt(s: Store, b: Batch, es: seq<Entry>, t: Triple)
    requires AllObjects(es)
    requires Targeted(s.students, b, es, t)
    ensures View(After(s, b, es).rows, t) == Some(FinalRecord(b, es, t.studentId))
    decreases |es|
  {
    var pre, e := es[..|es| - 1], es[|es| - 1];
    var s1 := After(s, b, pre);
    var s2 := After(s, b, es);
    assert s2 == Step(s1, b, e).0;
    var sid := t.studentId;
    if e.studentId == Some(sid) {
      var rec := Intended(b, sid, e);
      assert rec.Key() == t;
      assert FinalRecord(b, es, sid) == rec;
      match FindFirst(s1.rows, t)
      case Some(j) =>
        assert s2.rows == s1.rows[j := Row(s1.rows[j].id, rec)];
        FirstMatchStable(s1.rows, s2.rows, t, j);
        FindFirstIsTheFirstMatch(s2.rows, t, j);
      case None =>
        assert s2.rows == s1.rows + [Row(s1.nextId, rec)];
        assert IsFirstMatch(s2.rows, t, |s1.rows|);
        FindFirstIsTheFirstMatch(s2.rows, t, |s1.rows|);
    } else {
      assert LastFor(es, sid) == LastFor(pre, sid);
      RunSettlesAt(s, b, pre, t);
      var i := FindFirst(s1.rows, t).value;
      if Resolves(s.students, e) {
        var k := Intended(b, e.studentId.value, e).Key();
        assert k != t;
        match FindFirst(s1.rows, k)
        case Some(j) =>
          assert s2.rows == s1.rows[j := Row(s1.rows[j].id, s2.rows[j].rec)];
          assert s2.rows[j].rec.Key() == k;
          FirstMatchStable(s1.rows, s2.rows, t, i);
          FindFirstIsTheFirstMatch(s2.rows, t, i);
        case None =>
          assert s2.rows == s1.rows + [Row(s1.nextId, Intended(b, e.studentId.value, e))];
          FirstMatchStable(s1.rows, s2.rows, t, i);
          FindFirstIsTheFirstMatch(s2.rows, t, i);
      } else {
        assert s2 == s1;
      }
    }
  }

  /** Every triple the batch writes ends up holding its final record. */
  lemma RunSettles(s: Store, b: Batch, es: seq<Entry>)
    requires AllObjects(es)
    ensures forall t | Targeted(s.students, b, es, t) ::
              View(After(s, b, es).rows, t) == Some(FinalRecord(b, es, t.studentId))
  {
    forall t | Targeted(s.students, b, es, t)
      ensures View(After(s, b, es).rows, t) == Some(FinalRecord(b, es, t.studentId))
    {
      RunSettlesAt(s, b, es, t);
    }
  }

  /** Running the same batch on its own result changes nothing. */
  lemma RunIdempotent(s: Store, b: Batch, es: seq<Entry>)
    requires AllObjects(es)
    ensures After(After(s, b, es), b, es) == After(s, b, es)
  {
    var s1 := After(s, b, es);
    var s2 := After(s1, b, es);
    RunFrame(s, b, es);
    RunFrame(s1, b, es);
    RunSettles(s, b, es);
    RunSettles(s1, b, es);
    if |s2.rows| > |s1.rows| {
      // The appended row's triple is targeted and unmatched in s1 (RunFrame on s1),
      // yet RunSettles on s says s1 already has a row for every targeted triple.
      var k := s2.rows[|s1.rows|].rec.Key();
      assert false;
    }
    forall i | 0 <= i < |s1.rows|
      ensures s2.rows[i] == s1.rows[i]
    {
      if s2.rows[i] != s1.rows[i] {
        var k := s1.rows[i].rec.Key();
        FindFirstIsTheFirstMatch(s1.rows, k, i);
        FirstMatchStable(s1.rows, s2.rows, k, i);
        FindFirstIsTheFirstMatch(s2.rows, k, i);
      }
    }
    assert s2.rows == s1.rows;
  }

  /** A triple the batch does not write is found, or not found, exactly as before. */
  lemma ViewUntouched(s: Store, b: Batch, es: seq<Entry>, t: Triple)
    requires AllObjects(es)
    requires !Targeted(s.students, b, es, t)
    ensures View(After(s, b, es).rows, t) == View(s.rows, t)
  {
    var s' := After(s, b, es);
    RunFrame(s, b, es);
    match FindFirst(s.rows, t)
    case Some(i) =>
      FirstMatchStable(s.rows, s'.rows, t, i);
      FindFirstIsTheFirstMatch(s'.rows, t, i);
    case None =>
      assert NoMatch(s'.rows, t);
  }

  /**
   * A batch that passes its checks and commits leaves, for every triple it
   * writes, the record its last entry for that student asks for (present
   * defaulting to true, notes to null, recorded by the acting user), and
   * appends rows only for triples that had none.
   */
  lemma BulkWritesRequested(s: Store, req: BulkRequest, user: int, parse: string -> Option<Date>)
    requires Admissible(s, req, parse)
    ensures var b, es, s' := BatchOf(req, user, parse), req.attendances.value, Bulk(s, req, user, parse, true).0;
      && (forall t | Targeted(s.students, b, es, t) :: View(s'.rows, t) == Some(FinalRecord(b, es, t.studentId)))
      && |s.rows| <= |s'.rows|
      && (forall i :: |s.rows| <= i < |s'.rows| ==> NoMatch(s.rows, s'.rows[i].rec.Key()))
  {
    var b, es := BatchOf(req, user, parse), req.attendances.value;
    assert Bulk(s, req, user, parse, true).0 == After(s, b, es);
    RunAppendsOnlyNewTriples(s, b, es);
    RunSettles(s, b, es);
  }

  /**
   * A batch that passes its checks and commits leaves every triple it does not
   * write as it was, and every row that is not the first of a written triple
   * unchanged.
   */
  lemma BulkKeepsTheRest(s: Store, req: BulkRequest, user: int, parse: string -> Option<Date>)
    requires Admissible(s, req, parse)
    ensures var b, es, s' := BatchOf(req, user, parse), req.attendances.value, Bulk(s, req, user, parse, true).0;
      && (forall t | !Targeted(s.students, b, es, t) :: View(s'.rows, t) == View(s.rows, t))
      && |s.rows| <= |s'.rows|
      && (forall i :: 0 <= i < |s.rows| && !Targeted(s.students, b, es, s.rows[i].rec.Key()) ==> s'.rows[i] == s.rows[i])
      && (forall i :: 0 <= i < |s.rows| && !IsFirstMatch(s.rows, s.rows[i].rec.Key(), i) ==> s'.rows[i] == s.rows[i])
  {
    var b, es := BatchOf(req, user, parse), req.attendances.value;
    assert Bulk(s, req, user, parse, true).0 == After(s, b, es);
    RunChangesOnlyFirstMatches(s, b, es);
    forall t | !Targeted(s.students, b, es, t)
      ensures View(After(s, b, es).rows, t) == View(s.rows, t)
    {
      ViewUntouched(s, b, es, t);
    }
  }

  /**
   * The reply covers every entry: an entry for a known student yields the
   * record it asks for, an entry without a student id or for an unknown
   * student yields its error.
   */
  lemma BulkReplyCoversEntries(s: Store, req: BulkRequest, user: int, parse: string -> Option<Date>, commitOk: bool)
    ensures var r := Bulk(s, req, user, parse, commitOk).1;
      r.Ok? ==>
        var b, es := BatchOf(req, user, parse), req.attendances.value;
        && (forall i | 0 <= i < |es| && Resolves(s.students, es[i]) ::
              Intended(b, es[i].studentId.value, es[i]) in r.value.created)
        && (forall i | 0 <= i < |es| && es[i].studentId.None? :: MissingStudentId in r.value.errors)
        && (forall i | 0 <= i < |es| && es[i].studentId.Some? && es[i].studentId.value !in s.students ::
              StudentNotFound(es[i].studentId.value) in r.value.errors)
  {
    var r := Bulk(s, req, user, parse, commitOk).1;
    if r.Ok? {
      var b, es := BatchOf(req, user, parse), req.attendances.value;
      var os := Run(s, b, es).1;
      assert r.value == Tally(os);
      forall i | 0 <= i < |es| && Resolves(s.students, es[i])
        ensures Intended(b, es[i].studentId.value, es[i]) in r.value.created
      {
        assert Saved(Intended(b, es[i].studentId.value, es[i])) == os[i];
      }
      forall i | 0 <= i < |es| && es[i].studentId.None?
        ensures MissingStudentId in r.value.errors
      {
        assert Failed(MissingStudentId) == os[i];
      }
      forall i | 0 <= i < |es| && es[i].studentId.Some? && es[i].studentId.value !in s.students
        ensures StudentNotFound(es[i].studentId.value) in r.value.errors
      {
        assert Failed(StudentNotFound(es[i].studentId.value)) == os[i];
      }
    }
  }

  /**
   * The reply reports nothing else: every record in it comes from an entry for
   * a known student, and every error from an entry without a student id or for
   * an unknown student.
   */
  lemma BulkReplyComesFromEntries(s: Store, req: BulkRequest, user: int, parse: string -> Option<Date>, commitOk: bool)
    ensures var r := Bulk(s, req, user, parse, commitOk).1;
      r.Ok? ==>
        var b, es := BatchOf(req, user, parse), req.attendances.value;
        && (forall a | a in r.value.created ::
              exists i :: 0 <= i < |es| && Resolves(s.students, es[i]) && a == Intended(b, es[i].studentId.value, es[i]))
        && (forall sid | StudentNotFound(sid) in r.value.errors ::
              sid !in s.students && exists i :: 0 <= i < |es| && es[i].studentId == Some(sid))
        && (MissingStudentId in r.value.errors ==> exists i :: 0 <= i < |es| && es[i].studentId.None?)
  {
    var r := Bulk(s, req, user, parse, commitOk).1;
    if r.Ok? {
      var b, es := BatchOf(req, user, parse), req.attendances.value;
      var os := Run(s, b, es).1;
      assert r.value == Tally(os);
      forall a | a in r.value.created
        ensures exists i :: 0 <= i < |es| && Resolves(s.students, es[i]) && a == Intended(b, es[i].studentId.value, es[i])
      {
        var i :| 0 <= i < |os| && os[i] == Saved(a);
        assert Resolves(s.students, es[i]);
      }
      forall sid | StudentNotFound(sid) in r.value.errors
        ensures sid !in s.students && exists i :: 0 <= i < |es| && es[i].studentId == Some(sid)
      {
        var i :| 0 <= i < |os| && os[i] == Failed(StudentNotFound(sid));
        assert es[i].studentId == Some(sid);
      }
      if MissingStudentId in r.value.errors {
        var i :| 0 <= i < |os| && os[i] == Failed(MissingStudentId);
        assert es[i].studentId.None?;
      }
    }
  }

  /**
   * Submitting the same request again leaves the store, and the modelled reply,
   * as the first submission did (the modelled reply carries no record keys).
   */
  lemma BulkIdempotent(s: Store, req: BulkRequest, user: int, parse: string -> Option<Date>, commitOk: bool)
    ensures var (s1, r1) := Bulk(s, req, user, parse, commitOk);
      Bulk(s1, req, user, parse, commitOk) == (s1, r1)
  {
    var (s1, r1) := Bulk(s, req, user, parse, commitOk);
    if r1.Ok? {
      var b, es := BatchOf(req, user, parse), req.attendances.value;
      RunIdempotent(s, b, es);
      assert Run(s1, b, es).1 == Run(s, b, es).1;
    }
  }

  /** A day parser that knows one spelling of one day, for the worked example below. */
  function ExampleParse(str: string): Option<Date> {
    if str == "2024-03-01" then Some(Date(2024, 3, 1)) else None
  }

  /**
   * A worked example, first submission: class 5 exists and only student 1 is
   * known. A batch for students 1 and 999 records student 1 and reports 999.
   */
  lemma ExampleFirstBatch(user: int)
    ensures var req := BulkRequest(Some(5), Some("2024-03-01"),
                                   Some([Entry(Some(1), Some(true), None), Entry(Some(999), Some(false), None)]));
      var rec := Attendance(1, 5, Date(2024, 3, 1), true, None, user);
      && Bulk(Store({1}, {5}, [], 1), req, user, ExampleParse, true).1
           == Ok(BulkReport([rec], [StudentNotFound(999)]))
      && Bulk(Store({1}, {5}, [], 1), req, user, ExampleParse, true).0.rows == [Row(1, rec)]
  {
    var b := Batch(5, Date(2024, 3, 1), user);
    var s0 := Store({1}, {5}, [], 1);
    var e1, e2 := Entry(Some(1), Some(true), None), Entry(Some(999), Some(false), None);
    var rec1 := Attendance(1, 5, Date(2024, 3, 1), true, None, user);
    assert ExampleParse("2024-03-01") == Some(Date(2024, 3, 1));
    assert [e1, e2][..1] == [e1];
    assert [e1][..0] == [];
    assert Intended(b, 1, e1) == rec1;
    assert FindFirst(s0.rows, rec1.Key()) == None;
    assert s0.rows + [Row(s0.nextId, rec1)] == [Row(1, rec1)];
    assert Step(s0, b, e1).0.rows == [Row(1, rec1)];
    assert Run(s0, b, [e1][..0]) == (s0, []);
    var run1 := Run(s0, b, [e1]);
    assert run1.0.rows == [Row(1, rec1)] && run1.1 == [Saved(rec1)];
    var run2 := Run(s0, b, [e1, e2]);
    assert run2.0 == run1.0 && run2.1 == [Saved(rec1), Failed(StudentNotFound(999))];
    assert Tally(run2.1) == BulkReport([rec1], [StudentNotFound(999)]);
  }

  /**
   * The worked example, resubmission: marking student 1 absent with a note
   * updates the one existing row in place.
   */
  lemma ExampleResubmission(user: int)
    ensures var req := BulkRequest(Some(5), Some("2024-03-01"), Some([Entry(Some(1), Some(false), Some("late"))]));
      var s1 := Store({1}, {5}, [Row(1, Attendance(1, 5, Date(2024, 3, 1), true, None, user))], 2);
      var rec := Attendance(1, 5, Date(2024, 3, 1), false, Some("late"), user);
      && Bulk(s1, req, user, ExampleParse, true).1 == Ok(BulkReport([rec], []))
      && Bulk(s1, req, user, ExampleParse, true).0.rows == [Row(1, rec)]
  {
    var b := Batch(5, Date(2024, 3, 1), user);
    var s1 := Store({1}, {5}, [Row(1, Attendance(1, 5, Date(2024, 3, 1), true, None, user))], 2);
    var e3 := Entry(Some(1), Some(false), Some("late"));
    var rec3 := Attendance(1, 5, Date(2024, 3, 1), false, Some("late"), user);
    assert ExampleParse("2024-03-01") == Some(Date(2024, 3, 1));
    assert [e3][..0] == [];
    assert Intended(b, 1, e3) == rec3;
    assert FindFirst(s1.rows, rec3.Key()) == Some(0);
    var run3 := Run(s1, b, [e3]);
    assert run3.0.rows == [Row(1, rec3)] && run3.1 == [Saved(rec3)];
    assert Tally(run3.1) == BulkReport([rec3], []);
  }

  /** The worked example, a day written `03-01-2024`: refused, and the table is untouched. */
  lemma ExampleBadDay(s: Store, user: int)
    ensures var req := BulkRequest(Some(5), Some("03-01-2024"), Some([Entry(Some(1), None, None)]));
      Bulk(s, req, user, ExampleParse, true) == (s, Err(InvalidDate))
  {
    assert ExampleParse("03-01-2024") == None;
  }
}
