/** The `SCRAPER_RUNNING` guard of bot.py: the scrape task
    `task_get_latest_data`, run every four hours or on `/latest`, and the
    `/latest` handler `handler_get_latest` behind the `restricted`
    decorator. The tasks run one after another here; the guard is a
    sequential state machine over the flag and the catalog. */
module ScrapeGuard {
  import opened Wrappers
  import opened Catalog
  import opened Scraper
  import opened Keyboard

  const StartedText := "Started the scraper to get latest data."
  const NewJobsText := "New jobs posted"
  const NoNewJobText := "No new job posted."
  const UnauthorizedText := "You are not authorized to run this command."
  const BusyText := "Previous scraper still running. Please wait"

  /** The module-level flag `SCRAPER_RUNNING` and the catalog. */
  datatype Guard = Guard(running: bool, table: Table)

  /** How the task was started: by the repeating schedule, or with
      `data="force"` by `/latest`. */
  datatype Trigger = Scheduled | Force

  /** The state after a task and the messages it sent. */
  datatype Step = Step(guard: Guard, sent: seq<Message>)

  /** What the task does once the scrape has returned or raised: report
      to the admin chat and lower the flag, or leave the flag raised. */
  function Finish(admin: int, trigger: Trigger, run: Run): (r: Step)
    ensures r.guard.table == run.table
    ensures r.guard.running <==> run.Raised?
    ensures forall m :: m in r.sent ==> m.chat == admin
    ensures |r.sent| <= 1
    ensures run.Raised? ==> r.sent == []
    ensures Message(admin, NoNewJobText, []) in r.sent <==> trigger == Force && run.Completed? && run.added == []
    ensures (exists m :: m in r.sent && m.text == NewJobsText) <==> run.Completed? && run.added != []
  {
    match run
    case Raised(t, _) => Step(Guard(true, t), [])
    case Completed(t, added) =>
      if added != [] then Step(Guard(false, t), [Message(admin, NewJobsText, JobsInlineLayout(added))])
      else if trigger == Force then Step(Guard(false, t), [Message(admin, NoNewJobText, [])])
      else Step(Guard(false, t), [])
  }

  /** The start announcement followed by the report of `Finish`: every
      message goes to the admin, and the announcement is neither report. */
  lemma AnnouncedReport(admin: int, trigger: Trigger, run: Run)
    ensures forall m :: m in [Message(admin, StartedText, [])] + Finish(admin, trigger, run).sent ==> m.chat == admin
    ensures Message(admin, NoNewJobText, []) in [Message(admin, StartedText, [])] + Finish(admin, trigger, run).sent
      <==> trigger == Force && run.Completed? && run.added == []
    ensures (exists m :: m in [Message(admin, StartedText, [])] + Finish(admin, trigger, run).sent && m.text == NewJobsText)
      <==> run.Completed? && run.added != []
  {
    var start := Message(admin, StartedText, []);
    var sent := [start] + Finish(admin, trigger, run).sent;
    assert forall m :: m in sent <==> m == start || m in Finish(admin, trigger, run).sent;
    assert StartedText != NoNewJobText && StartedText != NewJobsText by {
      assert |StartedText| != |NoNewJobText| && |StartedText| != |NewJobsText|;
    }
  }

  /** `task_get_latest_data`: skip when a scrape is running; otherwise
      raise the flag, announce the start to the admin chat, scrape, report,
      and lower the flag. An exception from the scrape escapes before the
      flag is lowered, so it stays raised. */
  function TaskGetLatestData(g: Guard, trigger: Trigger, admin: int, s: Session,
                             toDay: string -> Option<int>, now: int): (r: Step)
    ensures g.running ==> r == Step(g, [])
    ensures !g.running ==>
      && 1 <= |r.sent| <= 2
      && r.sent[0] == Message(admin, StartedText, [])
      && r.guard.table == GetAndSaveNewJobs(g.table, s, toDay, now).table
      && (r.guard.running <==> GetAndSaveNewJobs(g.table, s, toDay, now).Raised?)
      && (forall m :: m in r.sent ==> m.chat == admin)
      && (Message(admin, NoNewJobText, []) in r.sent <==>
            trigger == Force && GetAndSaveNewJobs(g.table, s, toDay, now).Completed?
            && GetAndSaveNewJobs(g.table, s, toDay, now).added == [])
      && ((exists m :: m in r.sent && m.text == NewJobsText) <==>
            GetAndSaveNewJobs(g.table, s, toDay, now).Completed? && GetAndSaveNewJobs(g.table, s, toDay, now).added != [])
    ensures !g.running && GetAndSaveNewJobs(g.table, s, toDay, now).Raised? ==>
      r.sent == [Message(admin, StartedText, [])]
  {
    if g.running then Step(g, [])
    else
      var run := GetAndSaveNewJobs(g.table, s, toDay, now);
      AnnouncedReport(admin, trigger, run);
      var done := Finish(admin, trigger, run);
      Step(done.guard, [Message(admin, StartedText, [])] + done.sent)
  }

  /** One run of the scrape task, with what the site and the clock gave. */
  datatype Attempt = Attempt(trigger: Trigger, session: Session, now: int)

  /** A sequence of scrape tasks, one after the other. */
  function RunTasks(g: Guard, attempts: seq<Attempt>, admin: int, toDay: string -> Option<int>): (r: Step)
    decreases |attempts|
  {
    if attempts == [] then Step(g, [])
    else
      var a := attempts[0];
      var first := TaskGetLatestData(g, a.trigger, admin, a.session, toDay, a.now);
      var rest := RunTasks(first.guard, attempts[1..], admin, toDay);
      Step(rest.guard, first.sent + rest.sent)
  }

  /** While the flag is raised, no task does anything. */
  lemma {:induction false} RunningBlocksAll(g: Guard, attempts: seq<Attempt>, admin: int, toDay: string -> Option<int>)
    requires g.running
    ensures RunTasks(g, attempts, admin, toDay) == Step(g, [])
    decreases |attempts|
  {
    if attempts != [] {
      RunningBlocksAll(g, attempts[1..], admin, toDay);
    }
  }

  /** A scrape that raises leaves the flag raised for good: every later
      task, scheduled or forced, is skipped and sends nothing. */
  lemma FailureBlocksForever(g: Guard, a: Attempt, later: seq<Attempt>, admin: int, toDay: string -> Option<int>)
    requires !g.running
    requires GetAndSaveNewJobs(g.table, a.session, toDay, a.now).Raised?
    ensures
      var after := TaskGetLatestData(g, a.trigger, admin, a.session, toDay, a.now).guard;
      after.running && RunTasks(after, later, admin, toDay) == Step(after, [])
  {
    var after := TaskGetLatestData(g, a.trigger, admin, a.session, toDay, a.now).guard;
    RunningBlocksAll(after, later, admin, toDay);
  }

  /** A scrape that completes lowers the flag, so the next task runs. */
  lemma CompletionFreesGuard(g: Guard, a: Attempt, next: Attempt, admin: int, toDay: string -> Option<int>)
    requires !g.running
    requires GetAndSaveNewJobs(g.table, a.session, toDay, a.now).Completed?
    ensures
      var after := TaskGetLatestData(g, a.trigger, admin, a.session, toDay, a.now).guard;
      && !after.running
      && TaskGetLatestData(after, next.trigger, admin, next.session, toDay, next.now).sent[0] == Message(admin, StartedText, [])
  {
  }

  /** A forced scrape that completes always reports: the new jobs, or
      "No new job posted."; a scheduled one with nothing new only
      announces its start. */
  lemma ForcedRunReports(g: Guard, admin: int, s: Session, toDay: string -> Option<int>, now: int)
    requires !g.running
    requires GetAndSaveNewJobs(g.table, s, toDay, now).Completed?
    ensures |TaskGetLatestData(g, Force, admin, s, toDay, now).sent| == 2
    ensures GetAndSaveNewJobs(g.table, s, toDay, now).added == [] ==>
      TaskGetLatestData(g, Scheduled, admin, s, toDay, now).sent == [Message(admin, StartedText, [])]
  {
  }

  /** A completed run reports the new rows as buttons that open them. */
  lemma NewJobsReported(g: Guard, trigger: Trigger, admin: int, s: Session, toDay: string -> Option<int>, now: int)
    requires !g.running
    requires GetAndSaveNewJobs(g.table, s, toDay, now).Completed?
    requires GetAndSaveNewJobs(g.table, s, toDay, now).added != []
    ensures
      var added := GetAndSaveNewJobs(g.table, s, toDay, now).added;
      TaskGetLatestData(g, trigger, admin, s, toDay, now).sent
        == [Message(admin, StartedText, []), Message(admin, NewJobsText, JobsInlineLayout(added))]
  {
  }

  /** The outcome of `/latest`. */
  datatype LatestOutcome =
    | Refused(reply: Message)  // `restricted`: the sender is not the admin
    | Busy(reply: Message)     // a scrape is running
    | ScheduledForce           // `run_once(task_get_latest_data, data="force")`

  /** `handler_get_latest` behind `restricted`: only the admin chat may
      start a scrape, and only when none is running. */
  function HandleGetLatest(sender: int, admin: int, running: bool): (r: LatestOutcome)
    ensures r.ScheduledForce? <==> sender == admin && !running
    ensures sender != admin ==> r == Refused(Message(sender, UnauthorizedText, []))
    ensures sender == admin && running ==> r == Busy(Message(sender, BusyText, []))
  {
    if sender != admin then Refused(Message(sender, UnauthorizedText, []))
    else if running then Busy(Message(sender, BusyText, []))
    else ScheduledForce
  }

  /** `/latest` from the admin with no scrape running starts a forced scrape
      that, when it completes, always reports back to the admin. */
  lemma LatestFromAdminReports(g: Guard, admin: int, s: Session, toDay: string -> Option<int>, now: int)
    requires HandleGetLatest(admin, admin, g.running).ScheduledForce?
    requires GetAndSaveNewJobs(g.table, s, toDay, now).Completed?
    ensures var sent := TaskGetLatestData(g, Force, admin, s, toDay, now).sent;
      |sent| == 2 && sent[1].text in {NewJobsText, NoNewJobText}
  {
  }
}
