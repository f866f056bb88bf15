/** The decisions of the Telegram handlers and scheduled tasks of bot.py
    once the Telegram plumbing is removed: the `/start` help text, the
    `/all` argument, the status buttons, and the digests sent to
    students. The per-student queries (`fetch_active_jobs(student.id)`,
    `students_to_notify()`, `fetch_one_job`, `fetch_one_student`) are not
    part of this model: their answers are inputs. */
module Bot {
  import opened Wrappers
  import opened Strings
  import opened Callback
  import opened Catalog
  import opened Keyboard
  import opened Students

  // ---------------------------------------------------------------------
  // start_text

  /** One line of the help text: the command, the options it advertises
      in brackets, and what it does. */
  datatype HelpLine = HelpLine(command: string, options: seq<string>, description: string)

  function RenderLine(l: HelpLine): string
  {
    l.command + (if l.options == [] then "" else " [" + Join(l.options, '|') + "]") + ": " + l.description
  }

  /** The options the help text advertises for `/all`. */
  const AllOptions: seq<string> := ["interested", "applied", "skipped"]

  /** The lines of the help text, one per command. */
  const StartHelp := HelpLine("/start", [], "Get a list of commands.")
  const ActiveHelp := HelpLine("/active", [], "Get a list of active jobs that are not applied or skipped.")
  const AllHelp := HelpLine("/all", AllOptions, "Get list of all jobs.")
  const LatestHelp := HelpLine("/latest", [], "Run the scraper and get latest data.")
  const UnregisterHelp := HelpLine("/unregister", [], "Unregister")
  const RegisterHelp := HelpLine("/register", [], "Get info about T&P jobs.")

  /** The lines of `start_text(registered, notified)`. */
  function StartLines(registered: bool, notified: bool): (r: seq<HelpLine>)
    ensures |r| >= 2 && r[0].command == "/start"
    ensures registered ==> r[|r| - 1].command == "/unregister"
    ensures !registered ==> r[|r| - 1].command == "/register"
    ensures forall i :: 0 <= i < |r| && r[i].options != [] ==> registered && r[i].command == "/all"
  {
    if registered then
      [ StartHelp, ActiveHelp, AllHelp, LatestHelp,
        HelpLine(if notified then "/unnotify" else "/notify", [], "Give alerts related to jobs."),
        UnregisterHelp ]
    else
      [ StartHelp, RegisterHelp ]
  }

  function RenderLines(lines: seq<HelpLine>): seq<string>
  {
    seq(|lines|, i requires 0 <= i < |lines| => RenderLine(lines[i]))
  }

  /** The commands a help text advertises, in order. */
  function Commands(lines: seq<HelpLine>): seq<string>
  {
    seq(|lines|, i requires 0 <= i < |lines| => lines[i].command)
  }

  /** `start_text(registered, notified)`: the help lines joined by newlines. */
  function StartText(registered: bool, notified: bool): string
  {
    Join(RenderLines(StartLines(registered, notified)), '\n')
  }

  /** The greeting `start` replies with. */
  function StartReply(chat: int, fullName: string, registered: bool, notified: bool): (r: Message)
    ensures r.chat == chat && r.keyboard == []
    ensures |r.text| >= |StartText(registered, notified)|
    ensures r.text[|r.text| - |StartText(registered, notified)|..] == StartText(registered, notified)
  {
    Message(chat, "Hi " + fullName + "!! Please use the below commands to interact.\n"
                  + StartText(registered, notified), [])
  }

  /** An unregistered user sees the same two lines whatever the notify
      flag says. */
  lemma StartTextUnregistered(notified: bool)
    ensures StartText(false, notified) == StartText(false, !notified)
    ensures Commands(StartLines(false, notified)) == ["/start", "/register"]
  {
  }

  /** A registered user is offered `/unnotify` exactly when notified and
      `/notify` exactly when not; an unregistered user is offered neither. */
  lemma StartTextNotifyCommand(registered: bool, notified: bool)
    ensures "/unnotify" in Commands(StartLines(registered, notified)) <==> registered && notified
    ensures "/notify" in Commands(StartLines(registered, notified)) <==> registered && !notified
  {
    var cs := Commands(StartLines(registered, notified));
    if registered {
      assert cs == ["/start", "/active", "/all", "/latest", if notified then "/unnotify" else "/notify", "/unregister"];
      assert "/unnotify"[3] != "/unregister"[3];
    } else {
      assert cs == ["/start", "/register"];
      assert "/unnotify"[1] != "/register"[1];
    }
  }

  // ---------------------------------------------------------------------
  // /all [interested|applied|skip]

  /** The three filter flags passed to `fetch_all_jobs`. */
  datatype JobFilter = JobFilter(onlyInterested: bool, onlyApplied: bool, onlySkip: bool)

  const NoFilter := JobFilter(false, false, false)

  predicate AtMostOneFlag(f: JobFilter)
  {
    && !(f.onlyInterested && f.onlyApplied)
    && !(f.onlyInterested && f.onlySkip)
    && !(f.onlyApplied && f.onlySkip)
  }

  /** The query `handler_all_jobs` runs and the heading of its reply. */
  datatype AllJobsQuery = AllJobsQuery(filter: JobFilter, heading: string)

  /** `ctx.args[0].lower() if ctx.args else "all"` */
  function AllJobsArgument(args: seq<string>): string
  {
    if args == [] then "all" else Lower(args[0])
  }

  /** The argument mapping of `handler_all_jobs` as written: the word for
      skipped jobs it compares against is `skip`. */
  function AllJobsQueryAsWritten(args: seq<string>): (r: AllJobsQuery)
    ensures AtMostOneFlag(r.filter)
    ensures r.filter.onlyInterested <==> AllJobsArgument(args) == "interested"
    ensures r.filter.onlyApplied <==> AllJobsArgument(args) == "applied"
    ensures r.filter.onlySkip <==> AllJobsArgument(args) == "skip"
    ensures r.filter == NoFilter <==> r.heading == "List of all the jobs"
  {
    var arg := AllJobsArgument(args);
    if arg == "interested" then AllJobsQuery(JobFilter(true, false, false), "List of all the interested jobs")
    else if arg == "applied" then AllJobsQuery(JobFilter(false, true, false), "List of the applied jobs")
    else if arg == "skip" then AllJobsQuery(JobFilter(false, false, true), "List of the skipped jobs")
    else AllJobsQuery(NoFilter, "List of all the jobs")
  }

  /** `/all skipped`, the form the help text advertises, lists every job
      instead of the skipped ones. */
  lemma AllSkippedListsAll(rest: seq<string>)
    ensures "skipped" in AllOptions
    ensures AllJobsQueryAsWritten(["skipped"] + rest) == AllJobsQuery(NoFilter, "List of all the jobs")
  {
    assert Lower("skipped") == "skipped";
  }

  /** The mapping the help text promises: each advertised option selects
      its own filter; `skip` keeps working. */
  function AllJobsQueryFor(args: seq<string>): (r: AllJobsQuery)
    ensures AtMostOneFlag(r.filter)
    ensures r.filter.onlyInterested <==> AllJobsArgument(args) == "interested"
    ensures r.filter.onlyApplied <==> AllJobsArgument(args) == "applied"
    ensures r.filter.onlySkip <==> AllJobsArgument(args) in {"skip", "skipped"}
    ensures r.filter == NoFilter <==> r.heading == "List of all the jobs"
  {
    var arg := AllJobsArgument(args);
    if arg == "interested" then AllJobsQuery(JobFilter(true, false, false), "List of all the interested jobs")
    else if arg == "applied" then AllJobsQuery(JobFilter(false, true, false), "List of the applied jobs")
    else if arg == "skip" || arg == "skipped" then AllJobsQuery(JobFilter(false, false, true), "List of the skipped jobs")
    else AllJobsQuery(NoFilter, "List of all the jobs")
  }

  /** Each option of the `/all` help line selects exactly one filter, and
      distinct options select distinct filters; the two mappings differ
      only on the word `skipped`. */
  lemma AdvertisedOptionsSelect()
    ensures AllJobsQueryFor(["interested"]).filter == JobFilter(true, false, false)
    ensures AllJobsQueryFor(["applied"]).filter == JobFilter(false, true, false)
    ensures AllJobsQueryFor(["skipped"]).filter == JobFilter(false, false, true)
    ensures forall args :: AllJobsArgument(args) != "skipped" ==> AllJobsQueryFor(args) == AllJobsQueryAsWritten(args)
  {
    assert Lower("interested") == "interested";
    assert Lower("applied") == "applied";
    assert Lower("skipped") == "skipped";
  }

  /** Only the first argument counts, and its letter case does not. */
  lemma AllJobsCaseInsensitive(a: string, b: string, restA: seq<string>, restB: seq<string>)
    requires Lower(a) == Lower(b)
    ensures AllJobsQueryFor([a] + restA) == AllJobsQueryFor([b] + restB)
    ensures AllJobsQueryAsWritten([a] + restA) == AllJobsQueryAsWritten([b] + restB)
  {
  }

  /** `/all INTERESTED` selects the interested filter. */
  lemma AllJobsUpperCase()
    ensures AllJobsQueryFor(["INTERESTED"]).filter == JobFilter(true, false, false)
  {
    assert Lower("INTERESTED") == "interested";
  }

  // ---------------------------------------------------------------------
  // Status buttons

  predicate StartsWith(s: string, prefix: string)
  {
    |prefix| <= |s| && s[..|prefix|] == prefix
  }

  /** The field a status button writes: `INT…` interested, `APP…` applied,
      anything else skip. */
  function ButtonField(data: string): Flag
  {
    if StartsWith(data, "INT") then Interested
    else if StartsWith(data, "APP") then Applied
    else Skip
  }

  /** The job with one status flag set to `v`, everything else as before. */
  function SetFlag(j: Job, f: Flag, v: bool): (r: Job)
    ensures FlagOf(r, f) == v
    ensures forall g :: g != f ==> FlagOf(r, g) == FlagOf(j, g)
    ensures r.(interested := j.interested, applied := j.applied, skip := j.skip) == j
  {
    match f
    case Interested => j.(interested := v)
    case Applied => j.(applied := v)
    case Skip => j.(skip := v)
  }

  /** What `update_job_status_field` is asked to write, and the reply. */
  datatype StatusUpdate = StatusUpdate(field: Flag, value: bool, reply: string)

  /** The word the reply uses, from the field and its value before the press. */
  function MarkedAs(f: Flag, was: bool): string
  {
    match f
    case Interested => if was then "not interested" else "interested"
    case Applied => if was then "revoked" else "applied"
    case Skip => if was then "unskip" else "skip"
  }

  /** The toggle of `handler_update_job_field` for the job fetched. */
  function Toggle(data: string, j: Job): (r: StatusUpdate)
    ensures r.field == Interested <==> StartsWith(data, "INT")
    ensures r.field == Applied <==> !StartsWith(data, "INT") && StartsWith(data, "APP")
    ensures r.value != FlagOf(j, r.field)
    ensures r.reply == "Thank! Job " + j.title + " is marked as " + MarkedAs(r.field, !r.value) + "."
  {
    var f := ButtonField(data);
    var was := FlagOf(j, f);
    StatusUpdate(f, !was, "Thank! Job " + j.title + " is marked as " + MarkedAs(f, was) + ".")
  }

  /** The stored status after the update is written. */
  function ApplyStatus(j: Job, u: StatusUpdate): Job
  {
    SetFlag(j, u.field, u.value)
  }

  /** A press flips exactly one flag and leaves the rest of the job as is. */
  lemma ToggleFlipsOne(data: string, j: Job)
    ensures var after := ApplyStatus(j, Toggle(data, j));
      && FlagOf(after, ButtonField(data)) == !FlagOf(j, ButtonField(data))
      && (forall g :: g != ButtonField(data) ==> FlagOf(after, g) == FlagOf(j, g))
      && after.(interested := j.interested, applied := j.applied, skip := j.skip) == j
  {
  }

  /** Pressing the same button twice restores the job. */
  lemma ToggleTwice(data: string, j: Job)
    ensures var once := ApplyStatus(j, Toggle(data, j));
      ApplyStatus(once, Toggle(data, once)) == j
  {
    var f := ButtonField(data);
    var once := ApplyStatus(j, Toggle(data, j));
    var twice := ApplyStatus(once, Toggle(data, once));
    assert FlagOf(twice, f) == FlagOf(j, f);
    match f
    case Interested =>
    case Applied =>
    case Skip =>
  }

  /** The buttons of the details keyboard write the fields their captions
      name, and the caption says what the press will do. */
  lemma DetailsButtonsToggle(j: Job)
    ensures Toggle(JobDetailsKeyboard(j)[0][0].data, j).field == Interested
    ensures Toggle(JobDetailsKeyboard(j)[1][0].data, j).field == Applied
    ensures Toggle(JobDetailsKeyboard(j)[1][1].data, j).field == Skip
    ensures JobDetailsKeyboard(j)[0][0].caption == (if Toggle(JobDetailsKeyboard(j)[0][0].data, j).value then "Interested" else "Not Interested")
    ensures JobDetailsKeyboard(j)[1][0].caption == (if Toggle(JobDetailsKeyboard(j)[1][0].data, j).value then "Applied" else "Revoked")
    ensures JobDetailsKeyboard(j)[1][1].caption == (if Toggle(JobDetailsKeyboard(j)[1][1].data, j).value then "Skip" else "Unskip")
  {
    var k := JobDetailsKeyboard(j);
    var int_ := CallbackData("INT", j.id);
    var app := CallbackData("APP", j.id);
    var skip := CallbackData("SKIP", j.id);
    assert int_[..3] == "INT";
    assert app[..3] == "APP";
    assert skip[..3] == "SKI";
  }

  /** Why `handler_update_job_field` raises. */
  datatype ButtonError =
    | BadData(e: CallbackError)  // `job_id` raised
    | UnknownJob                 // `fetch_one_job` found nothing: AttributeError

  /** `handler_update_job_field`: decode the id, fetch the job (the lookup
      is an input), toggle. */
  function HandleStatusButton(data: string, fetchJob: int -> Option<Job>): (r: Result<StatusUpdate, ButtonError>)
    ensures JobId(data).Failure? ==> r == Failure(BadData(JobId(data).error))
    ensures JobId(data).Success? && fetchJob(JobId(data).value).None? ==> r == Failure(UnknownJob)
    ensures JobId(data).Success? && fetchJob(JobId(data).value).Some? ==>
      r == Success(Toggle(data, fetchJob(JobId(data).value).value))
    ensures r.Success? ==>
      && JobId(data).Success?
      && fetchJob(JobId(data).value).Some?
      && r.value == Toggle(data, fetchJob(JobId(data).value).value)
  {
    match JobId(data)
    case Failure(e) => Failure(BadData(e))
    case Success(id) =>
      match fetchJob(id)
      case None => Failure(UnknownJob)
      case Some(j) => Success(Toggle(data, j))
  }

  /** A press on a button of the details keyboard reaches the job shown. */
  lemma DetailsButtonReachesJob(j: Job, fetchJob: int -> Option<Job>)
    requires fetchJob(j.id) == Some(j)
    ensures HandleStatusButton(JobDetailsKeyboard(j)[0][0].data, fetchJob) == Success(Toggle(JobDetailsKeyboard(j)[0][0].data, j))
    ensures HandleStatusButton(JobDetailsKeyboard(j)[1][0].data, fetchJob) == Success(Toggle(JobDetailsKeyboard(j)[1][0].data, j))
    ensures HandleStatusButton(JobDetailsKeyboard(j)[1][1].data, fetchJob) == Success(Toggle(JobDetailsKeyboard(j)[1][1].data, j))
  {
    JobDetailsDecodes(j);
  }

  // ---------------------------------------------------------------------
  // /active

  /** `handler_active_jobs`: the layout of the jobs, or a plain reply when
      there are none. */
  function ActiveJobsReply(chat: int, jobs: seq<Job>): (r: Message)
    ensures r.chat == chat
    ensures r.keyboard == [] <==> jobs == []
    ensures r.text == (if jobs == [] then "No active jobs." else "Here is the list of active jobs")
    ensures jobs != [] ==> r.keyboard == JobsInlineLayout(jobs)
  {
    var layout := JobsInlineLayout(jobs);
    if layout != [] then Message(chat, "Here is the list of active jobs", layout)
    else Message(chat, "No active jobs.", [])
  }

  // ---------------------------------------------------------------------
  // Digests

  const ActiveDigestText := "Active jobs that are not applied."
  const NearDigestText := "Take action on below pending jobs reaching end_date."
  const NoNearJobsText := "There are not jobs nearing to end_date."

  /** The students, in order, whose list of jobs is not empty. */
  function Recipients(students: seq<Student>, jobsOf: nat -> seq<Job>): (r: seq<Student>)
    ensures |r| <= |students|
    ensures forall i :: 0 <= i < |r| ==> jobsOf(r[i].id) != []
  {
    if students == [] then []
    else
      var last := students[|students| - 1];
      Recipients(students[..|students| - 1], jobsOf) + (if jobsOf(last.id) != [] then [last] else [])
  }

  /** The recipients are exactly the students with a non-empty list. */
  lemma {:induction false} RecipientsExact(students: seq<Student>, jobsOf: nat -> seq<Job>)
    ensures forall s :: s in Recipients(students, jobsOf) <==> s in students && jobsOf(s.id) != []
  {
    if students != [] {
      var init := students[..|students| - 1];
      RecipientsExact(init, jobsOf);
      assert students == init + [students[|students| - 1]];
    }
  }

  /** Recipients of consecutive slices of students follow each other. */
  lemma {:induction false} RecipientsAppend(a: seq<Student>, b: seq<Student>, jobsOf: nat -> seq<Job>)
    ensures Recipients(a + b, jobsOf) == Recipients(a, jobsOf) + Recipients(b, jobsOf)
    decreases |b|
  {
    if b == [] {
      assert a + b == a;
    } else {
      var init := b[..|b| - 1];
      var last := b[|b| - 1];
      var kept: seq<Student> := if jobsOf(last.id) != [] then [last] else [];
      RecipientsAppend(a, init, jobsOf);
      assert (a + b)[..|a + b| - 1] == a + init;
      assert (a + b)[|a + b| - 1] == last;
      assert Recipients(a + b, jobsOf) == Recipients(a + init, jobsOf) + kept;
      assert Recipients(b, jobsOf) == Recipients(init, jobsOf) + kept;
    }
  }

  /** One message per recipient, in order, with the recipient's jobs as
      the keyboard. */
  function Digests(rs: seq<Student>, jobsOf: nat -> seq<Job>, text: string): seq<Message>
  {
    seq(|rs|, i requires 0 <= i < |rs| => Message(rs[i].chatId, text, JobsInlineLayout(jobsOf(rs[i].id))))
  }

  lemma DigestsAppend(ra: seq<Student>, rb: seq<Student>, jobsOf: nat -> seq<Job>, text: string)
    ensures Digests(ra + rb, jobsOf, text) == Digests(ra, jobsOf, text) + Digests(rb, jobsOf, text)
  {
    var pab := Digests(ra + rb, jobsOf, text);
    var pa := Digests(ra, jobsOf, text);
    var pb := Digests(rb, jobsOf, text);
    forall i | 0 <= i < |pab|
      ensures pab[i] == (pa + pb)[i]
    {
      if i >= |ra| {
        assert (ra + rb)[i] == rb[i - |ra|];
      }
    }
  }

  /** The reference digest: one message per recipient, in order, with the
      recipient's jobs as the keyboard. */
  function PlannedDigest(students: seq<Student>, jobsOf: nat -> seq<Job>, text: string): (r: seq<Message>)
    ensures |r| <= |students|
    ensures forall m :: m in r ==> m.text == text && m.keyboard != []
  {
    Digests(Recipients(students, jobsOf), jobsOf, text)
  }

  /** The loop of the scheduled digest tasks: for each student in turn,
      send the layout of their jobs unless it is empty. */
  method SendDigest(students: seq<Student>, jobsOf: nat -> seq<Job>, text: string) returns (sent: seq<Message>)
    ensures sent == PlannedDigest(students, jobsOf, text)
    ensures |sent| <= |students|
    ensures forall m :: m in sent ==> m.text == text && m.keyboard != []
    ensures forall s :: s in students && jobsOf(s.id) != [] ==>
      Message(s.chatId, text, JobsInlineLayout(jobsOf(s.id))) in sent
  {
    sent := [];
    var i := 0;
    while i < |students|
      invariant 0 <= i <= |students|
      invariant sent == PlannedDigest(students[..i], jobsOf, text)
    {
      var s := students[i];
      var layout := JobsInlineLayout(jobsOf(s.id));
      assert students[..i + 1][..i] == students[..i];
      if layout != [] {
        sent := sent + [Message(s.chatId, text, layout)];
      }
      i := i + 1;
    }
    assert students[..|students|] == students;
    var rs := Recipients(students, jobsOf);
    RecipientsExact(students, jobsOf);
    forall s | s in students && jobsOf(s.id) != []
      ensures Message(s.chatId, text, JobsInlineLayout(jobsOf(s.id))) in sent
    {
      var k :| 0 <= k < |rs| && rs[k] == s;
      assert sent[k] == Message(s.chatId, text, JobsInlineLayout(jobsOf(s.id)));
    }
  }

  /** `task_notify_active_jobs` */
  method TaskNotifyActiveJobs(students: seq<Student>, activeOf: nat -> seq<Job>) returns (sent: seq<Message>)
    ensures sent == PlannedDigest(students, activeOf, ActiveDigestText)
    ensures forall m :: m in sent ==> m.text == ActiveDigestText && m.keyboard != []
  {
    sent := SendDigest(students, activeOf, ActiveDigestText);
  }

  /** How `task_near_end_date_jobs` was started: by the daily schedule, or
      by `/end_date` from one student. */
  datatype NearTrigger = Daily | Forced(requester: Student)

  /** `task_near_end_date_jobs` */
  method TaskNearEndDate(trigger: NearTrigger, students: seq<Student>, nearOf: nat -> seq<Job>) returns (sent: seq<Message>)
    ensures trigger.Daily? ==> sent == PlannedDigest(students, nearOf, NearDigestText)
    ensures trigger.Forced? ==>
      && |sent| == 1
      && sent[0].chat == trigger.requester.chatId
      && (sent[0].text == NoNearJobsText <==> nearOf(trigger.requester.id) == [])
      && (nearOf(trigger.requester.id) != [] ==> sent[0].text == NearDigestText)
      && (sent[0].keyboard == [] <==> nearOf(trigger.requester.id) == [])
      && sent[0].keyboard == JobsInlineLayout(nearOf(trigger.requester.id))
  {
    match trigger
    case Daily =>
      sent := SendDigest(students, nearOf, NearDigestText);
    case Forced(student) =>
      var jobs := nearOf(student.id);
      if jobs != [] {
        sent := [Message(student.chatId, NearDigestText, JobsInlineLayout(jobs))];
      } else {
        sent := [Message(student.chatId, NoNearJobsText, [])];
      }
  }

  /** The digest of a list of students is the digest of its first part
      followed by the digest of the rest: messages go out in student order. */
  lemma DigestInStudentOrder(a: seq<Student>, b: seq<Student>, jobsOf: nat -> seq<Job>, text: string)
    ensures PlannedDigest(a + b, jobsOf, text) == PlannedDigest(a, jobsOf, text) + PlannedDigest(b, jobsOf, text)
  {
    RecipientsAppend(a, b, jobsOf);
    DigestsAppend(Recipients(a, jobsOf), Recipients(b, jobsOf), jobsOf, text);
  }
}
