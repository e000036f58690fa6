# Attendance records: a Dafny model of the attendance routes

This project models the attendance blueprint of a school-management API
(`routes/attendance.py`). The routes record, per student, class and calendar
day, whether the student was present, with optional notes and the user who
recorded it. The model treats the database as an immutable value, a `Store`
(`model.dfy`): the ids of the known students, the ids of the known classes,
and the attendance table as a sequence of rows in table order, each row a
synthetic primary key and an `Attendance` record. Every route becomes a pure
function from a store and a request to a new store and a reply.

* `bulk.dfy`, module `BulkUpsert`: `create_bulk_attendance`, the core. It
  checks the request (`class_id`, `date`, `attendances` present, the day
  parses, the class exists), then walks the entries in order. An entry for an
  unknown student, or one without `student_id`, yields one error and the walk
  goes on. An entry for a known student rewrites the record for its (student,
  class, day) triple in place, or inserts one. Everything is committed at
  the end, or nothing is. The lookup sees rows inserted earlier in the same
  batch, as the session's autoflush makes them visible to the query, so a
  student named twice in one batch gets one record.
* `routes.dfy`, module `AttendanceRoutes`: list with filters, get, create,
  update and delete by primary key.
* `model.dfy`, module `AttendanceModel`: the store, the error kinds, and the
  lookups (first row with a given triple, row with a given key).
* `wrappers.dfy`, module `Wrappers`: `Option` and `Result`.

The main results are these. The (student, class, day) triple stays unique
under every route. A request that fails any check, or whose commit fails,
leaves the store exactly as it was. Each bulk entry gets exactly one outcome.
After a bulk request, each triple it writes holds the record asked for by the
last entry for that student. Every other triple, and every row that is not
the first row of its triple, is left alone. Submitting the same bulk request
twice gives the same store and the same reply as submitting it once. The
reply is the same up to record keys and `recorded_at`, which the modelled
reply does not carry.

Things the code does not do itself are parameters:
* `parse: string -> Option<Date>` stands for `datetime.strptime(.., '%Y-%m-%d')`.
* `user` stands for `current_user.id`.
* `commitOk` says whether `db.session.commit()` succeeds.

## Model

| member | source | states |
|---|---|---|
| `AttendanceModel.FindFirst` | routes/attendance.py:135-139 | the duplicate lookup returns the first row in table order with the requested (student, class, day) triple, and returns nothing exactly when no row has that triple |
| `BulkUpsert.Step` | routes/attendance.py:125-162 | one entry's outcome depends only on the entry and the known students: an unknown student or a missing id is an error, otherwise the requested record is saved; the step keeps keys well formed and triples unique |
| `BulkUpsert.Run` | routes/attendance.py:124-162 | the loop gives exactly one outcome per entry, in entry order, whatever the table holds; students and classes are untouched; well-formed keys and unique triples are preserved |
| `BulkUpsert.Tally` | routes/attendance.py:121-170 | the reply lists have as many items as there are outcomes, a record is in `created` exactly when some entry saved it, and an error is in `errors` exactly when some entry failed with it |
| `BulkUpsert.Bulk` | routes/attendance.py:99-173 | a failed request or a failed commit leaves the store unchanged; the request succeeds exactly when every field is present, the day parses, the class exists, every entry is an object and the commit succeeds; `created` and `errors` together have one item per entry; keys stay well formed and triples unique |
| `BulkUpsert.BulkErrors` | routes/attendance.py:104-119 | the error a refused bulk request gets. The checks run in this order: `class_id`, `date` and `attendances` present, the day parses, the class exists. The first check that fails decides the reply. A non-object entry or a failed commit gives a server error |
| `BulkUpsert.RunGrows` | routes/attendance.py:141-159 | the batch only appends rows, with keys handed out in order from the next free key; every existing row keeps its key and its triple |
| `BulkUpsert.RunChangesOnlyFirstMatches` | routes/attendance.py:135-147 | an existing row changes only if the batch writes its triple and it is the first row with that triple |
| `BulkUpsert.RunAppendsOnlyNewTriples` | routes/attendance.py:148-159 | an appended row is for a triple the batch writes and for which the table had no row, so an existing match is updated rather than duplicated |
| `BulkUpsert.RunFrame` | routes/attendance.py:135-159 | the three facts above together |
| `BulkUpsert.RunSettlesAt` | routes/attendance.py:141-159 | after the batch, the lookup for a triple the batch writes finds the record asked for by the last entry for that student: `present` defaults to true, `notes` to null, and `recorded_by` is the acting user |
| `BulkUpsert.RunSettles` | routes/attendance.py:141-159 | the statement above, for every written triple at once |
| `BulkUpsert.ViewUntouched` | routes/attendance.py:135-159 | for a triple the batch does not write (other class, other day, or a student no successful entry names), the lookup finds what it found before |
| `BulkUpsert.RunIdempotent` | routes/attendance.py:135-159 | running the same entries on the table they produced gives the same table back |
| `BulkUpsert.BulkWritesRequested` | routes/attendance.py:105-164 | after a committed batch that passes its checks, each written triple holds the record asked for by the last entry for that student, and rows are appended only for triples that had none |
| `BulkUpsert.BulkKeepsTheRest` | routes/attendance.py:105-164 | after a committed batch that passes its checks, every triple it does not write is found as before, and every row that is not the first of a written triple is unchanged |
| `BulkUpsert.BulkReplyCoversEntries` | routes/attendance.py:124-162 | each entry for a known student contributes its record to `created`, each entry without a student id contributes the missing-id error, and each entry for an unknown student contributes "not found" for that id |
| `BulkUpsert.BulkReplyComesFromEntries` | routes/attendance.py:124-162 | every record in `created` comes from an entry for a known student, every "not found" error names an unknown student some entry gave, and a missing-id error comes from an entry without a student id |
| `BulkUpsert.BulkIdempotent` | routes/attendance.py:99-173 | submitting a bulk request a second time against the resulting store changes nothing and gives the same reply, up to record keys and `recorded_at`, which the modelled reply does not carry |
| `BulkUpsert.ExampleFirstBatch` | routes/attendance.py:124-170 | with class 5 and only student 1 known, a batch for students 1 and 999 creates one record for student 1 and reports student 999 as not found |
| `BulkUpsert.ExampleResubmission` | routes/attendance.py:141-147 | resubmitting student 1 as absent with a note updates the one existing row in place, and no second row appears |
| `BulkUpsert.ExampleBadDay` | routes/attendance.py:110-114 | a day that does not parse is refused with an invalid-date error and the store is untouched |
| `AttendanceRoutes.LookupAsWritten` | routes/attendance.py:175-183 | `get_or_404` inside the catch-all handler, as written: a missing key comes back as a server error |
| `AttendanceRoutes.MissingKeyIsServerErrorAsWritten` | routes/attendance.py:179-183 | for a key no row holds, the routes as written answer with a server error and not with "not found" |
| `AttendanceRoutes.Lookup` | routes/attendance.py:180 | lookup by primary key as intended: it returns a row holding the key, and otherwise returns "attendance not found" exactly when no row holds it |
| `AttendanceRoutes.LookupFindsTheRow` | routes/attendance.py:180 | when keys are distinct, the lookup returns the one row holding the key |
| `AttendanceRoutes.Get` | routes/attendance.py:175-183 | `get_attendance` succeeds exactly when a row holds the key and returns that row; otherwise it reports "attendance not found" (as intended; see ## Findings) |
| `AttendanceRoutes.List` | routes/attendance.py:10-39 | the listed rows are exactly the table rows matching every given filter (student, class, day), with an id of 0 or an empty day meaning no filter; a day that does not parse gives an invalid-date error |
| `AttendanceRoutes.ListWithoutFiltersIsTheTable` | routes/attendance.py:21-37 | with no filters, or only falsy ones, the whole table is listed |
| `AttendanceRoutes.Create` | routes/attendance.py:41-95 | a failed create leaves the store unchanged; a create succeeds exactly when the fields are present, the day parses, student and class exist, no record has the triple, and the commit succeeds; on success exactly one row is appended under the next key, with `present` defaulting to true; keys stay well formed and triples unique |
| `AttendanceRoutes.CreateErrors` | routes/attendance.py:48-77 | the error a refused create gets. The checks run in this order: `student_id`, `class_id` and `date` present, the day parses, the student exists, the class exists, no record has the triple. The first check that fails decides the reply |
| `AttendanceRoutes.CreateTwiceIsRefused` | routes/attendance.py:69-77 | once a create has succeeded, the same request is refused as a duplicate and changes nothing |
| `AttendanceRoutes.Update` | routes/attendance.py:185-208 | a failed update leaves the store unchanged; a missing key is "attendance not found"; on success only the row with that key is replaced, its triple is kept, `present` and `notes` change only when given, and `recorded_by` becomes the acting user (as intended; see ## Findings) |
| `AttendanceRoutes.UpdateTouchesOnlyThatRow` | routes/attendance.py:193-204 | when keys are distinct, every row with another key is unchanged by an update |
| `AttendanceRoutes.Delete` | routes/attendance.py:210-221 | a failed delete leaves the store unchanged; a missing key is "attendance not found"; on success the table loses exactly one row and gains none (as intended; see ## Findings) |
| `AttendanceRoutes.DeleteRemovesExactlyThatRow` | routes/attendance.py:214-217 | when keys are distinct, after a delete the table holds exactly the old rows whose key differs from the deleted one |
| `AttendanceRoutes.DeleteKeepsInvariants` | routes/attendance.py:214-217 | a delete keeps keys well formed and triples unique |
| `AttendanceRoutes.UpdateIdempotent` | routes/attendance.py:193-204 | applying the same update twice gives the store one update gives |
| `AttendanceRoutes.DeleteTwiceIsNotFound` | routes/attendance.py:214-217 | when keys are distinct, deleting the same key a second time reports "attendance not found" and changes nothing (as intended; see ## Findings) |
| `AttendanceRoutes.CreatedRowIsFound` | routes/attendance.py:79-92 | when keys are distinct, the record a create returns is found again under its new key |
| `AttendanceRoutes.BulkThenCreateIsRefused` | routes/attendance.py:69-77 | after a committed bulk request, a single create for a student the batch recorded, in that class on that day, is refused as a duplicate and changes nothing |

## Findings

| source | as written | input that shows it | evidently intended | confidence | as-written member | corrected member |
|---|---|---|---|---|---|---|
| routes/attendance.py:180-183 (also 190, 206-208, 215, 219-221) | `get_or_404` raises the 404 as an exception inside `try: ... except Exception`, so the handler replies 500 with the 404's text | `GET`, `PUT` or `DELETE /attendances/7` when no record has key 7 | a 404 "not found" reply | high; not executed | `AttendanceRoutes.LookupAsWritten`, `AttendanceRoutes.MissingKeyIsServerErrorAsWritten` | `AttendanceRoutes.Lookup` (used by `Get`, `Update`, `Delete`) |

## Reply counts

* routes/attendance.py:124-162 appends exactly one item per entry, either to
  `created` or to `errors`. So the two lists' lengths add up to the number of
  entries, as the third `ensures` of `BulkUpsert.Bulk` states.

## Left out

* HTTP routing, JSON parsing, `jsonify`, `to_dict` and status codes are left out. The `ApiError` kinds stand for the error replies.
* Authentication is left out. The acting user is a parameter.
* `recorded_at` and `datetime.utcnow()` are left out. The clock is not part of the model.
* `datetime.strptime` is left out. Day parsing is the `parse` parameter.
* Session mechanics are reduced to the `commitOk` flag. A failed commit returns the original store. Other database failures are not modelled, such as an error raised during autoflush inside the loop.
* The text of the error messages is left out. Per-entry errors are the values `StudentNotFound(id)` and `MissingStudentId`.
* JSON values of the wrong type are left out: a non-boolean or null `present`, a non-integer id, an `attendances` value that is not a list, a body that is not an object. An entry that is not an object is modelled: indexing it raises, and so does the handler's `.get`. That makes the whole request a rolled-back server error. The model checks for this before the loop, which gives the same final store and reply.
* Primary keys come from a `nextId` counter. The database's own key allocation may differ.
* `.first()` without an ORDER BY is modelled as the first row in table order.
* Concurrent requests are left out. The gap between the duplicate check and the insert across two requests cannot be expressed in a model of one request.
* `BulkUpsert.BulkReport`: the items of `created` are records without their primary key. The code serialises a newly inserted row before any key is assigned, and an updated row with its key. `recorded_at` is not carried either.
* `BulkUpsert.Tally`: states the total count and membership of the `created` and `errors` lists, not their order. In the body they follow entry order.
* `AttendanceRoutes.List`: states which rows are listed, not that they keep table order. In the body they do.
