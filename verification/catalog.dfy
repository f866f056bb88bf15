/** The `jobs` table of database.py as an in-memory sequence of rows, in
    row-id order, with the queries and updates the bot and the scraper run
    against it. Stored dates are day numbers, and `job_exists`, which
    compares dates as text, reads them through the text `DATE()` wrote;
    the time of day the near-deadline query reads is in milliseconds; the
    clock is always a parameter. */
module Catalog {
  import opened Wrappers

  /** The three status columns of a job row. */
  datatype Flag = Interested | Applied | Skip

  /** One row of the `jobs` table. `uid` is the portal's identifier of the
      posting, unique across the table. `endDate` and `postedDate` are
      nullable DATE columns. */
  datatype Job = Job(
    id: nat,
    title: string,
    uid: string,
    endDate: Option<int>,
    postedDate: Option<int>,
    interested: bool,
    applied: bool,
    skip: bool,
    appliedOn: Option<int>,
    createdAt: int)

  type Table = seq<Job>

  /** `sqlite3.IntegrityError` raised by the unique `uid` column. */
  datatype DbError = DuplicateUid

  /** Milliseconds in a day, and the near-deadline window of two days. */
  const MsPerDay: int := 86_400_000
  const NearWindowMs: int := 2 * MsPerDay

  function FlagOf(j: Job, f: Flag): bool
  {
    match f
    case Interested => j.interested
    case Applied => j.applied
    case Skip => j.skip
  }

  function Ids(t: Table): set<nat>
  {
    set j | j in t :: j.id
  }

  function Uids(t: Table): set<string>
  {
    set j | j in t :: j.uid
  }

  /** The table invariants: the primary key and the `uid` column are unique. */
  predicate WellFormed(t: Table)
  {
    && (forall i, k :: 0 <= i < k < |t| ==> t[i].id != t[k].id)
    && (forall i, k :: 0 <= i < k < |t| ==> t[i].uid != t[k].uid)
  }

  lemma IdsAppend(t: Table, j: Job)
    ensures Ids(t + [j]) == Ids(t) + {j.id}
    ensures Uids(t + [j]) == Uids(t) + {j.uid}
  {
    assert j in t + [j];
    forall x | x in t ensures x in t + [j] {
    }
  }

  /** The largest id in the table, 0 when it is empty. */
  function MaxId(t: Table): (m: nat)
    ensures forall j :: j in t ==> j.id <= m
    ensures t == [] ==> m == 0
  {
    if t == [] then 0
    else
      var rest := MaxId(t[1..]);
      assert forall j :: j in t ==> j == t[0] || j in t[1..];
      if t[0].id > rest then t[0].id else rest
  }

  /** The id SQLite gives the next row: one past the largest id, 1 on an empty table. */
  function NextId(t: Table): (id: nat)
    ensures id !in Ids(t)
    ensures id >= 1
    ensures t == [] ==> id == 1
  {
    MaxId(t) + 1
  }

  /** A freshly inserted row: the given columns, a new id, every status
      flag false and no `applied_on`. */
  function NewJob(t: Table, title: string, uid: string, end: Option<int>, posted: Option<int>, now: int): (j: Job)
    ensures j.id !in Ids(t)
    ensures j.title == title && j.uid == uid && j.endDate == end && j.postedDate == posted
    ensures !j.interested && !j.applied && !j.skip && j.appliedOn == None
  {
    Job(NextId(t), title, uid, end, posted, false, false, false, None, now)
  }

  /** Is a posting with this portal uid already stored? */
  function UidExists(t: Table, uid: string): (b: bool)
    ensures b <==> uid in Uids(t)
  {
    if t == [] then false
    else
      assert forall j :: j in t ==> j == t[0] || j in t[1..];
      t[0].uid == uid || UidExists(t[1..], uid)
  }

  /** The row `insert_job` appends, together with the new table. */
  datatype Inserted = Inserted(table: Table, job: Job)

  /** `insert_job(title, uid, end_date, posted_date)`: appends a row with a
      fresh id and default flags, or fails on a uid already present. */
  function InsertJob(t: Table, title: string, uid: string, end: Option<int>, posted: Option<int>, now: int)
    : (r: Result<Inserted, DbError>)
    ensures r.Failure? <==> uid in Uids(t)
    ensures r.Success? ==>
      && r.value.table == t + [r.value.job]
      && r.value.job.id !in Ids(t)
      && (t == [] ==> r.value.job.id == 1)
      && r.value.job.uid == uid && r.value.job.title == title
      && r.value.job.endDate == end && r.value.job.postedDate == posted
      && r.value.job.createdAt == now
      && !r.value.job.interested && !r.value.job.applied && !r.value.job.skip
      && r.value.job.appliedOn == None
    ensures r.Success? && WellFormed(t) ==> WellFormed(r.value.table)
  {
    if UidExists(t, uid) then Failure(DuplicateUid)
    else
      var j := NewJob(t, title, uid, end, posted, now);
      var t' := t + [j];
      assert forall i :: 0 <= i < |t| ==> t[i] in t;
      Success(Inserted(t', j))
  }

  /** A second insert of the same uid fails, whatever its other columns,
      so the first row is never overwritten. */
  lemma DuplicateInsertFails(t: Table, title: string, uid: string, end: Option<int>, posted: Option<int>, now: int,
                             title2: string, end2: Option<int>, posted2: Option<int>, now2: int)
    requires InsertJob(t, title, uid, end, posted, now).Success?
    ensures
      var first := InsertJob(t, title, uid, end, posted, now).value;
      && InsertJob(first.table, title2, uid, end2, posted2, now2) == Failure(DuplicateUid)
      && first.table[|t|] == first.job
  {
    var first := InsertJob(t, title, uid, end, posted, now).value;
    IdsAppend(t, first.job);
  }

  /** `fetch_one(id)`: the first row with this id, if any. */
  function FetchOne(t: Table, id: nat): (r: Option<Job>)
    ensures r.Some? <==> id in Ids(t)
    ensures r.Some? ==> r.value in t && r.value.id == id
  {
    if t == [] then None
    else if t[0].id == id then Some(t[0])
    else
      assert forall j :: j in t ==> j == t[0] || j in t[1..];
      FetchOne(t[1..], id)
  }

  /** With unique ids, `fetch_one` finds exactly the row carrying the id. */
  lemma {:induction false} FetchOneFindsRow(t: Table, i: nat)
    requires WellFormed(t)
    requires i < |t|
    ensures FetchOne(t, t[i].id) == Some(t[i])
  {
    if i > 0 {
      assert t[0].id != t[i].id;
      assert t[1..][i - 1] == t[i];
      FetchOneFindsRow(t[1..], i - 1);
    }
  }

  /** The WHERE clause of `fetch_active_jobs`: not skipped, not applied,
      interested, and an end date that is present and not yet past. */
  predicate IsActive(j: Job, today: int)
  {
    && !j.skip
    && !j.applied
    && j.interested
    && j.endDate.Some?
    && j.endDate.value >= today
  }

  /** `fetch_active_jobs()`, in row order. */
  function ActiveJobs(t: Table, today: int): (r: Table)
    ensures forall j :: j in r <==> j in t && IsActive(j, today)
    ensures |r| <= |t|
  {
    if t == [] then []
    else
      assert forall j :: j in t ==> j == t[0] || j in t[1..];
      (if IsActive(t[0], today) then [t[0]] else []) + ActiveJobs(t[1..], today)
  }

  /** The filter keeps the table's order: it distributes over concatenation. */
  lemma {:induction false} ActiveJobsAppend(a: Table, b: Table, today: int)
    ensures ActiveJobs(a + b, today) == ActiveJobs(a, today) + ActiveJobs(b, today)
  {
    if a == [] {
      assert a + b == b;
    } else {
      assert (a + b)[0] == a[0];
      assert (a + b)[1..] == a[1..] + b;
      ActiveJobsAppend(a[1..], b, today);
    }
  }

  /** The extra condition of `fetch_near_deadline_jobs`,
      `JULIANDAY(end_date) - JULIANDAY(now) < 2`, on whole milliseconds:
      `msOfDay` is the time elapsed since local midnight of `today`. */
  predicate IsNearDeadline(j: Job, today: int, msOfDay: int)
  {
    && IsActive(j, today)
    && (j.endDate.value - today) * MsPerDay - msOfDay < NearWindowMs
  }

  /** `fetch_near_deadline_jobs()`, in row order. */
  function NearDeadlineJobs(t: Table, today: int, msOfDay: int): (r: Table)
    ensures forall j :: j in r <==> j in t && IsNearDeadline(j, today, msOfDay)
    ensures |r| <= |t|
  {
    if t == [] then []
    else
      assert forall j :: j in t ==> j == t[0] || j in t[1..];
      (if IsNearDeadline(t[0], today, msOfDay) then [t[0]] else []) + NearDeadlineJobs(t[1..], today, msOfDay)
  }

  /** Every near-deadline row is an active row: the near-deadline list is
      the active list, further filtered, in the same order. */
  lemma {:induction false} NearDeadlineRefinesActive(t: Table, today: int, msOfDay: int)
    ensures NearDeadlineJobs(ActiveJobs(t, today), today, msOfDay) == NearDeadlineJobs(t, today, msOfDay)
    ensures forall j :: j in NearDeadlineJobs(t, today, msOfDay) ==> j in ActiveJobs(t, today)
  {
    if t != [] {
      NearDeadlineRefinesActive(t[1..], today, msOfDay);
      var head := if IsActive(t[0], today) then [t[0]] else [];
      assert ActiveJobs(t, today) == head + ActiveJobs(t[1..], today);
      if IsActive(t[0], today) {
        assert (head + ActiveJobs(t[1..], today))[1..] == ActiveJobs(t[1..], today);
      } else {
        assert head + ActiveJobs(t[1..], today) == ActiveJobs(t[1..], today);
      }
    }
  }

  /** The two-day window in whole days: an active row ending today or
      tomorrow is always near, one ending the day after tomorrow is near
      exactly when midnight has passed, and a later one never is. */
  lemma NearDeadlineWindow(j: Job, today: int, msOfDay: int)
    requires IsActive(j, today)
    requires 0 <= msOfDay < MsPerDay
    ensures j.endDate.value <= today + 1 ==> IsNearDeadline(j, today, msOfDay)
    ensures j.endDate.value == today + 2 ==> (IsNearDeadline(j, today, msOfDay) <==> msOfDay > 0)
    ensures j.endDate.value >= today + 3 ==> !IsNearDeadline(j, today, msOfDay)
  {
    var d := j.endDate.value - today;
    if d >= 3 {
      assert d * MsPerDay >= 3 * MsPerDay;
    }
  }

  /** The row after `update_field_to_true`: flag `f` set, and `applied_on`
      stamped when `f` is `applied`. */
  function MarkTrue(j: Job, f: Flag, now: int): Job
  {
    match f
    case Interested => j.(interested := true)
    case Applied => j.(applied := true, appliedOn := Some(now))
    case Skip => j.(skip := true)
  }

  /** Same row apart from the status columns. */
  predicate SameRecord(a: Job, b: Job)
  {
    a.id == b.id && a.title == b.title && a.uid == b.uid && a.endDate == b.endDate
    && a.postedDate == b.postedDate && a.createdAt == b.createdAt
  }

  /** `update_field_to_true(id, field)`: every row with this id gets the
      flag set; `applied_on` becomes `now` only for `applied`; all other
      rows and columns stay as they were. */
  function UpdateFieldToTrue(t: Table, id: nat, f: Flag, now: int): (r: Table)
    ensures |r| == |t|
    ensures forall i :: 0 <= i < |t| && t[i].id != id ==> r[i] == t[i]
    ensures forall i :: 0 <= i < |t| && t[i].id == id ==>
      && SameRecord(r[i], t[i])
      && FlagOf(r[i], f)
      && (f != Interested ==> r[i].interested == t[i].interested)
      && (f != Applied ==> r[i].applied == t[i].applied)
      && (f != Skip ==> r[i].skip == t[i].skip)
      && r[i].appliedOn == (if f == Applied then Some(now) else t[i].appliedOn)
    ensures id !in Ids(t) ==> r == t
  {
    seq(|t|, i requires 0 <= i < |t| => if t[i].id == id then MarkTrue(t[i], f, now) else t[i])
  }

  /** Repeating the update keeps the flag set and changes nothing else,
      except that a repeated `applied` re-stamps `applied_on`. */
  lemma UpdateFieldToTrueIdempotent(t: Table, id: nat, f: Flag, now1: int, now2: int)
    ensures UpdateFieldToTrue(UpdateFieldToTrue(t, id, f, now1), id, f, now2) == UpdateFieldToTrue(t, id, f, now2)
  {
    var once := UpdateFieldToTrue(t, id, f, now1);
    var twice := UpdateFieldToTrue(once, id, f, now2);
    var direct := UpdateFieldToTrue(t, id, f, now2);
    forall i | 0 <= i < |t|
      ensures twice[i] == direct[i]
    {
      assert once[i].id == t[i].id;
    }
  }

  /** Marking a row applied or skipped takes it off the active list. */
  lemma UpdateLeavesActive(t: Table, id: nat, f: Flag, now: int, today: int)
    requires f != Interested
    ensures forall j :: j in ActiveJobs(UpdateFieldToTrue(t, id, f, now), today) ==> j.id != id
  {
    var r := UpdateFieldToTrue(t, id, f, now);
    forall j | j in ActiveJobs(r, today)
      ensures j.id != id
    {
      var i :| 0 <= i < |r| && r[i] == j;
      assert r[i].id == t[i].id;
    }
  }

  /** The WHERE clause of `job_exists`: the same title, and both date
      arguments equal, as text, to what the row stores. A stored date is
      the text `DATE()` produced, `dateText(day)`; an argument in any other
      spelling (`2024-5-1` for `2024-05-01`) never matches, and a NULL
      column never compares equal. */
  predicate Matches(j: Job, title: string, end: string, posted: string, dateText: int -> string)
  {
    && j.title == title
    && j.endDate.Some? && dateText(j.endDate.value) == end
    && j.postedDate.Some? && dateText(j.postedDate.value) == posted
  }

  /** `job_exists(title, end_date, posted_date)` */
  method JobExists(t: Table, title: string, end: string, posted: string, dateText: int -> string) returns (b: bool)
    ensures b <==> exists i :: 0 <= i < |t| && Matches(t[i], title, end, posted, dateText)
  {
    b := false;
    var i := 0;
    while i < |t| && !b
      invariant 0 <= i <= |t|
      invariant b <==> exists k :: 0 <= k < i && Matches(t[k], title, end, posted, dateText)
    {
      b := Matches(t[i], title, end, posted, dateText);
      i := i + 1;
    }
  }
}
