# tnp-scraper in Dafny

A model of the core of tnp-scraper. The program is a Telegram bot. It logs in to a college training-and-placement
portal, scrapes the job listing table, and stores new postings in SQLite. It lets registered students browse
the jobs, mark them interested, applied or skipped, and receive digests.

The model covers these parts:

- **Scraping** (`scraper.dfy`): turning a listing row into a posting, with the
  `DD/MM/YYYY` → `YYYY-MM-DD` date rewrite and the uid taken from the action link. The ingestion fold
  `get_and_save_new_jobs` inserts each posting whose uid is not stored yet and returns the new rows in order.
  A raised exception keeps the inserts made before it.
- **The jobs catalog** (`catalog.dfy`): the `jobs` table as a sequence of rows, with these operations:
  - insert, with its defaults and its unique uid;
  - `fetch_one`, `fetch_active_jobs` and `fetch_near_deadline_jobs`;
  - `update_field_to_true`;
  - `job_exists`.
- **Callback data** (`callback.dfy`): the `PREFIX_<id>` strings on inline buttons and the `job_id` decoder of
  `helpers.py`. Python's `str(int)` and `int(str)` are in `strings.dfy`.
- **Keyboards** (`keyboard.dfy`): `jobs_inline_layout` and the three status buttons of the job details view.
- **Bot decisions** (`bot.dfy`): these are
  - the `/start` help text;
  - the `/all` argument mapping;
  - the INT/APP/SKIP toggle of `handler_update_job_field`;
  - the `/active` reply;
  - the digest loops of `task_notify_active_jobs` and `task_near_end_date_jobs`.
- **The scraper guard** (`scrape_guard.dfy`): the `SCRAPER_RUNNING` flag of `task_get_latest_data`, and `/latest`
  behind the `restricted` decorator.
- **Students** (`students.dfy`): `/register`, `/notify`, `/unnotify` and `/unregister`, and the
  `is_registered` gate, over a roster keyed by chat id.

Every Telegram send becomes a `Message` value. The HTTP session, the HTML tree, the clock and the per-student
database queries are parameters.

## Model

| member | source | states |
|---|---|---|
| Strings.Strip | scraper.py:58-61 | `strip()` removes only surrounding white space: the result is one contiguous slice of the text, everything before and after it is white space, and it starts and ends with non-space. Text already trimmed is unchanged. |
| Strings.StripKeeps | scraper.py:58 | Stripping never introduces a character that was absent. |
| Strings.Split | scraper.py:58 | No piece contains the separator, there is at least one piece, and joining the pieces with the separator gives the text back. |
| Strings.Lower | bot.py:153 | The length is kept, each upper-case ASCII letter becomes its lower-case letter, and every other character is kept in place. |
| Strings.Show | bot.py:74 | `str(n)` is all digits exactly when `n` is not negative; otherwise it is `-` followed by digits. |
| Strings.SplitJoin | scraper.py:58 | `split` undoes `join` for pieces without the separator. |
| Strings.JoinLength | scraper.py:58 | A join is as long as its pieces plus one separator between each pair. |
| Strings.ParseShow | helpers.py:3 | `int(str(n)) == n` for every integer, negative ones included. |
| Strings.ParseRejects | helpers.py:3 | A character other than a digit, `_`, a sign or the white space `int()` ignores makes `int()` raise. That white space is `isspace` without the separators U+001C..U+001F. |
| Callback.JobId | helpers.py:1-3 | `job_id` raises IndexError exactly when there is no `_`. Otherwise it succeeds exactly when `int()` accepts the text after the first `_`, and its value is that integer. `int()` ignores surrounding white space except U+001C..U+001F. |
| Callback.CallbackData | bot.py:74 | The data starts with the prefix and `_`. For a prefix without `_`, the text after the first `_` is `str(id)`. |
| Callback.JobIdRoundTrip | helpers.py:1-3 | Decoding `PREFIX_<id>` gives back `id` for any prefix without `_`. |
| Callback.JobIdIgnoresPrefix | helpers.py:2-3 | Only the text after the first `_` decides the decoded id. |
| Callback.JobIdRejectsNonNumeric | helpers.py:3 | A non-numeric suffix makes `job_id` raise ValueError. |
| Callback.JobIdExample | helpers.py:2 | `job_id("JOB_123") == 123`. |
| Callback.JobIdRejectsSeparator | helpers.py:3 | Data with U+001C before the digits raises ValueError, although `isspace` accepts that character. |
| Catalog.NextId | database.py:23 | The new row id is not used yet and is 1 on an empty table. |
| Catalog.NewJob | database.py:22-32 | A new row carries the given columns, every status flag is false, and `applied_on` is NULL. |
| Catalog.UidExists | scraper.py:34 | True exactly when a stored row has the uid. |
| Catalog.InsertJob | tests/test_database.py:64-98 | Insert fails exactly on a stored uid. Otherwise it appends one row with a fresh id (1 on an empty table), the given columns and false flags, and keeps ids and uids unique. |
| Catalog.DuplicateInsertFails | tests/test_database.py:93-98 | A second insert of a uid fails whatever its other columns. |
| Catalog.FetchOne | database.py:50-57 | Returns a row with the id exactly when the id is stored. |
| Catalog.FetchOneFindsRow | database.py:50-57 | With unique ids, `fetch_one` returns exactly the row carrying the id. |
| Catalog.ActiveJobs | database.py:60-68 | The result holds exactly the rows that are not skipped, not applied, interested, and whose end date is today or later. |
| Catalog.ActiveJobsAppend | database.py:60-68 | The active filter keeps row order: it distributes over concatenation. |
| Catalog.NearDeadlineJobs | database.py:71-80 | The result holds exactly the active rows whose end date is less than two days away. |
| Catalog.NearDeadlineRefinesActive | database.py:71-80 | The near-deadline list is the active list filtered further, in the same order. |
| Catalog.NearDeadlineWindow | database.py:78 | Ending today or tomorrow is always near, and three or more days away is never near. Two days away is near exactly when midnight has passed. |
| Catalog.UpdateFieldToTrue | database.py:83-96 | Sets the flag on the rows with the id and stamps `applied_on` only for `applied`. Every other row and column is unchanged, and an unknown id changes nothing. |
| Catalog.UpdateFieldToTrueIdempotent | database.py:83-91 | Repeating the update equals doing it once at the later time. |
| Catalog.UpdateLeavesActive | database.py:60-96 | Marking a row applied or skipped removes it from the active list. |
| Catalog.JobExists | database.py:99-105 | True exactly when some row has the title and both dates stored, and the text `DATE()` wrote for each date equals the given text. Any other spelling of a date never matches. |
| Scraper.SwapDate | scraper.py:57-59 | No `/` is left and the length is kept, because each `/` became one `-`. Text without `/` is unchanged, so a second swap does nothing. |
| Scraper.NormaliseDate | scraper.py:57-59 | The rewritten date has no `/` and is never longer than the cell text. A trimmed cell without `/` is kept as it is. |
| Scraper.SwapDateDayMonthYear | scraper.py:57-59 | `DD/MM/YYYY` becomes `YYYY-MM-DD`. |
| Scraper.NormaliseDateTwice | scraper.py:58-59 | A second full rewrite only strips the first result again. |
| Scraper.NormaliseDateMovesInnerSpace | scraper.py:58-59 | A day ending in white space inside the text ends up at the end, so the full rewrite is not idempotent. |
| Scraper.NormaliseDateNotIdempotent | scraper.py:58-59 | `01 /05/2024` gives `2024-05-01 `, which a second pass changes. |
| Scraper.LinkUid | scraper.py:60 | `rsplit("/", 1)[1]` raises exactly when there is no `/`. On success it is the text after the last `/`. |
| Scraper.LinkUidRoundTrip | scraper.py:60 | Any link ending in `/<uid>` yields `uid`. |
| Scraper.ExtractRow | scraper.py:56-61 | A row with other than four cells raises. A four-cell row raises AttributeError exactly when the action cell has no link, and IndexError exactly when the link has no `/`. Otherwise it succeeds with the stripped title, both rewritten dates and the link's uid. |
| Scraper.ExtractRows | scraper.py:55-61 | The generator yields the rows' postings in order and stops at the first row that raises, reporting that row's error. |
| Scraper.Ingest | scraper.py:30-38 | The catalog afterwards is the old one with exactly the returned rows appended, at most one per posting. |
| Scraper.IngestOne | scraper.py:33-37 | A stored uid changes nothing. Otherwise exactly one row describing the posting is appended. |
| Scraper.IngestOneInserts | scraper.py:34-37 | The step's insert is exactly `insert_job`'s successful insert. |
| Scraper.NewPositionsSound | scraper.py:30-38 | Every listed position is the first occurrence of a uid not stored. |
| Scraper.NewPositionsComplete | scraper.py:30-38 | Every first occurrence of a uid not stored is listed. |
| Scraper.NewPositionsIncreasing | scraper.py:30-38 | The positions are strictly increasing. |
| Scraper.IngestReturnsFirstNew | scraper.py:30-38 | The run returns, in input order, exactly one row per first occurrence of a uid not stored before. |
| Scraper.IngestFreshUidsDistinct | scraper.py:33-37 | The returned rows have distinct uids, none of them stored before. |
| Scraper.IngestUids | scraper.py:30-38 | Afterwards the stored uids are the old ones plus every scraped uid, and old rows are untouched. |
| Scraper.IngestKnownIsNoop | scraper.py:33-34 | Postings whose uids are all stored insert nothing. |
| Scraper.IngestTwiceReturnsNothing | scraper.py:30-38 | A second run over the same postings returns nothing and changes nothing. |
| Scraper.IngestWellFormed | scraper.py:30-38 | Ingestion keeps ids and uids unique. |
| Scraper.GetAndSaveNewJobs | scraper.py:30-67 | A network failure or a missing table raises and changes nothing. A row that raises is reported as that row's error, keeping the inserts before it. With every row extracted, the run completes exactly when logout succeeds, and is the ingestion of every posting either way; a failed logout raises `LogoutFailed` over exactly that ingested catalog. Old rows always stay. |
| Scraper.ScrapeIdempotent | scraper.py:30-38 | Scraping the same page again reports no new jobs and leaves the catalog as it was. |
| Keyboard.JobsInlineLayout | bot.py:70-76 | One row per job, each holding that job's button. The layout is empty exactly when there are no jobs. |
| Keyboard.LayoutDecodes | bot.py:70-76 | Row `i` is captioned with job `i`'s title and decodes to job `i`'s id. |
| Keyboard.LayoutIdsInOrder | bot.py:72-75 | Decoding the whole layout lists the jobs' ids in order. |
| Keyboard.JobDetailsKeyboard | bot.py:209-217 | One button on the first row and two on the second. |
| Keyboard.JobDetailsDecodes | bot.py:211-215 | Each of INT, APP and SKIP decodes to the shown job's id. |
| Students.Register | bot.py:251-268 | Refuses a registered user unchanged. A failed insert changes nothing. Otherwise it creates the student if absent, marks them registered and replies with thanks. No other student changes. |
| Students.Gated | bot.py:37-51 | An unregistered sender is refused with the fixed reply and nothing changes. A registered sender reaches the command. |
| Students.SetNotify | bot.py:226-232 | Sets the notify flag and replies according to the flag's previous value. |
| Students.ClearNotify | bot.py:275-281 | Clears the notify flag and replies according to the flag's previous value. |
| Students.Notify | bot.py:222-232 | Only the registered sender's notify flag changes, and it becomes set. |
| Students.Unnotify | bot.py:271-281 | Only the registered sender's notify flag changes, and it becomes clear. |
| Students.Unregister | bot.py:284-293 | Clears the registered flag without deleting the student and replies according to the previous state. |
| Students.RegisterTwice | bot.py:255-268 | Registering again is refused and changes nothing. |
| Students.UnregisterRegister | bot.py:251-293 | Unregistering and registering again restores the roster exactly. |
| Students.UnnotifyNotify | bot.py:222-281 | Turning notifications off and on restores the roster. |
| Students.NoCommandDeletes | bot.py:222-293 | No command removes a student. |
| Bot.StartLines | bot.py:54-67 | The help starts with `/start` and ends with `/unregister` for a registered user and `/register` otherwise. Only `/all` advertises options, and only to registered users. |
| Bot.StartReply | bot.py:130-137 | The greeting goes to the sender's chat with no keyboard and ends with the help text. |
| Bot.StartTextUnregistered | bot.py:65-67 | An unregistered user sees `/start` and `/register` whatever the notify flag. |
| Bot.StartTextNotifyCommand | bot.py:57-64 | `/unnotify` is offered exactly to registered notified users, and `/notify` exactly to registered users who are not notified. |
| Bot.AllJobsQueryAsWritten | bot.py:153-165 | At most one filter is set, each exactly for its word, and the word for skipped jobs is `skip`. |
| Bot.AllSkippedListsAll | bot.py:61-165 | `/all skipped`, which the help text advertises, lists all jobs as written. |
| Bot.AllJobsQueryFor | bot.py:153-165 | The corrected mapping: `skip` and `skipped` both select the skipped jobs. |
| Bot.AdvertisedOptionsSelect | bot.py:61 | Each advertised option selects its own filter. The corrected mapping differs from the original only on `skipped`. |
| Bot.AllJobsCaseInsensitive | bot.py:153 | Only the first argument counts, and its letter case does not. |
| Bot.AllJobsUpperCase | bot.py:153 | `/all INTERESTED` selects the interested filter. |
| Bot.Toggle | bot.py:181-192 | An `INT` prefix selects interested, otherwise `APP` selects applied, otherwise skip. The written value is the negation of the stored one, and the reply names the state after the press. |
| Bot.ToggleFlipsOne | bot.py:181-192 | A press flips exactly the field its prefix names and leaves the rest of the job as is. |
| Bot.ToggleTwice | bot.py:181-192 | Pressing the same button twice restores the job. |
| Bot.DetailsButtonsToggle | bot.py:203-217 | INT, APP and SKIP write interested, applied and skip. Each caption names what the press will do. |
| Bot.HandleStatusButton | bot.py:173-193 | Bad callback data or an unknown job raises. Data that decodes to a stored job always succeeds, with the toggle applied to that job. |
| Bot.DetailsButtonReachesJob | bot.py:180-215 | A press on any details button reaches and toggles the job shown. |
| Bot.ActiveJobsReply | bot.py:140-147 | Sends the layout of the jobs, or "No active jobs." exactly when there are none. |
| Bot.Recipients | bot.py:81-82 | At most one recipient per student, and each recipient has a non-empty job list. |
| Bot.RecipientsExact | bot.py:81-82 | The recipients are exactly the students with a non-empty job list. |
| Bot.PlannedDigest | bot.py:79-87 | At most one message per student, each with the digest text and a non-empty keyboard. |
| Bot.SendDigest | bot.py:79-87 | The loop sends the planned digest. Every message carries the text and a non-empty keyboard. Every student with jobs gets their layout. |
| Bot.TaskNotifyActiveJobs | bot.py:79-87 | The active-jobs digest is the planned digest with its fixed text. |
| Bot.TaskNearEndDate | bot.py:108-127 | Daily runs send the near-deadline digest. A forced run sends exactly one message to the requester: the layout under the digest text when something is near, or the fixed text exactly when nothing is near. |
| Bot.DigestInStudentOrder | bot.py:121-127 | Messages go out in student order: the digest of `a + b` is the digest of `a` followed by that of `b`. |
| ScrapeGuard.Finish | bot.py:98-105 | The flag stays raised exactly when the scrape raised. "No new job posted." is sent exactly on a forced run with nothing new. "New jobs posted" is sent exactly when rows were added. Nothing is sent after a raise. |
| ScrapeGuard.TaskGetLatestData | bot.py:90-105 | A running scrape makes the task a no-op. Otherwise the start is announced first and every message goes to the admin. The catalog is the scrape's. The flag stays raised exactly when the scrape raised. "No new job posted." is sent exactly on a forced completed run with nothing new, and "New jobs posted" exactly when rows were added. A raising scrape sends only the start announcement. |
| ScrapeGuard.AnnouncedReport | bot.py:95-104 | After the start announcement, every report message goes to the admin, and the announcement is never mistaken for either report. |
| ScrapeGuard.RunningBlocksAll | bot.py:91-93 | While the flag is raised, no task does anything. |
| ScrapeGuard.FailureBlocksForever | bot.py:93-105 | A scrape that raises leaves the flag raised for good, so every later task is skipped. |
| ScrapeGuard.CompletionFreesGuard | bot.py:105 | A completed scrape lowers the flag, so the next task runs. |
| ScrapeGuard.ForcedRunReports | bot.py:98-104 | A completed forced run always sends a second message. A scheduled run with nothing new only announces its start. |
| ScrapeGuard.NewJobsReported | bot.py:98-102 | New rows are reported to the admin as their layout. |
| ScrapeGuard.HandleGetLatest | bot.py:235-241 | A forced scrape is scheduled exactly for the admin when none is running. Others get the fixed refusal, and the admin gets the busy reply. |
| ScrapeGuard.LatestFromAdminReports | bot.py:235-241 | `/latest` from the admin with no scrape running always gets a report of new jobs or of none. |

## Left out

- HTTP login, fetch and logout, the `asyncio.sleep` calls, and lxml parsing are not modelled. The session's outcome and the parsed rows are inputs: the `Session` and `ListingRow` types.
- A `<td>` whose `.text` is `None` is not modelled. `Strip(None)` would raise AttributeError, but every cell here has text.
- `str.lower()` is modelled on ASCII letters only, and `int()` on ASCII digits only. Python also folds other Unicode letters and accepts other Unicode decimal digits.
- `int()`'s 4300-digit limit and its base prefixes are not modelled: `job_id` uses base 10.
- `JULIANDAY` arithmetic is floating point. The model compares whole milliseconds since local midnight instead, and SQLite's `DATE()` on text is the parameter `toDay`. The text it stores for a day is the parameter `dateText`, which `job_exists` compares against.
- The SQL is built by f-string interpolation, so quoting and injection are not modelled. Commit failures that are only logged are not modelled either.
- The per-student queries are not part of this model: `fetch_active_jobs(student.id[, True])`, `fetch_all_jobs`, `fetch_one_job`, `fetch_one_student`, `students_to_notify` and `update_job_status_field`. Their answers are inputs. `handler_active_jobs` passes the chat id where the tasks pass `student.id`; the model takes the jobs list as given.
- `database.py` as shown defines `insert(title, end_date, posted_date)` and a three-column `job_exists`. `scraper.py` calls `insert_job(title, uid, …)` and `job_exists(uid)`, and the tests expect a unique `uid` column. The model follows the scraper and the tests (`InsertJob`, `UidExists`), and models the three-column query separately (`JobExists`).
- The tests list no `register` column for `student`, while `bot.py` reads and writes one. The model follows `bot.py`. A new student's `notify` default is taken to be false, and `student_is_registered` / `student_is_notified` are taken to return booleans.
- The scrape is modelled at one logical time (`now`). Each insert's `created_at` is that time.
- Telegram wiring is not modelled: `main`, job queue timings, `concurrent_updates`, the `lru_cache` on `start_text`, `query.answer()` and Markdown parse mode. Concurrent handlers are not modelled either: tasks run one after another.
- `handler_job_details` is modelled only through its keyboard. Its message text (title and dates) is formatting only.
- `handler_get_near_end_date_jobs` only schedules `task_near_end_date_jobs` with `data="force"`, which is modelled as `TaskNearEndDate` with a `Forced` trigger.
- Telegram sends are taken never to raise. In `bot.py` a raising `send_message` at lines 95-104 would escape with `SCRAPER_RUNNING` still raised, so `CompletionFreesGuard` holds only when the sends succeed. A raising send inside the digest loops at lines 81-87 and 121-127 would end the loop and skip the remaining students, which `SendDigest` does not model.
- Catalog.FetchOne: returns the whole row, while `fetch_one` selects only `id, title, end_date, posted_date` (database.py:54); its callers read only those columns.
- Catalog.ActiveJobs: returns whole rows, while `fetch_active_jobs` and `fetch_near_deadline_jobs` select only `id, title, end_date` (database.py:64, database.py:75); `Catalog.NearDeadlineJobs` likewise. The layouts built from them read only those columns, so the SELECT column lists are not modelled.
- `fetch_active_jobs` and `fetch_near_deadline_jobs` have no `ORDER BY`, so SQLite does not promise an order. `ActiveJobs` and `NearDeadlineJobs` return the rows in table order, which is a modelling choice.
- `update_field_to_true` interpolates any column name into its SQL. The model restricts the field to the three status flags. A bad column name makes `execute` raise outside the `try` around the commit, and that path is not modelled.
- `scrape_tnp.py`, `logger.py` and `constants.py` are not part of this model.
- Scraper.NormaliseDateTwice: the date rewrite is not idempotent. `strip` runs before the swap, so white space inside a piece can move to the end. The model proves that the swap step is idempotent and that a second full rewrite is exactly one more `strip`.

## Findings

| source | as written | input that shows it | evidently intended | confidence | as-written member | corrected member |
|---|---|---|---|---|---|---|
| bot.py:61, bot.py:163 | `handler_all_jobs` compares the argument with `"skip"`, while the help text advertises the option `skipped` | `/all skipped` | lists the skipped jobs | medium, not executed | Bot.AllSkippedListsAll | Bot.AdvertisedOptionsSelect |
