/** The messages the bot sends and the inline keyboards attached to them
    (bot.py `jobs_inline_layout` and the status keyboard of
    `handler_job_details`). A Telegram send becomes a `Message` value. */
module Keyboard {
  import opened Wrappers
  import opened Strings
  import opened Callback
  import opened Catalog

  /** An `InlineKeyboardButton`: the caption shown and its callback data. */
  datatype Button = Button(caption: string, data: string)

  /** One `send_message`, `reply_text` or `edit_message_text`: recipient
      chat, text, and the keyboard rows (empty when there is no markup). */
  datatype Message = Message(chat: int, text: string, keyboard: seq<seq<Button>>)

  /** The button that opens the details of a job. */
  function JobButton(j: Job): Button
  {
    Button(j.title, CallbackData("JOB", j.id))
  }

  /** `jobs_inline_layout(jobs)`: one row holding one button per job. */
  function JobsInlineLayout(jobs: seq<Job>): (r: seq<seq<Button>>)
    ensures |r| == |jobs|
    ensures r == [] <==> jobs == []
    ensures forall i :: 0 <= i < |jobs| ==> r[i] == [JobButton(jobs[i])]
  {
    seq(|jobs|, i requires 0 <= i < |jobs| => [JobButton(jobs[i])])
  }

  /** Every row of the layout is one button labelled with its job's
      title, and decoding its callback data with `job_id` gives back the
      job's id: row `i` opens job `i`. */
  lemma LayoutDecodes(jobs: seq<Job>)
    ensures forall i :: 0 <= i < |jobs| ==>
      && |JobsInlineLayout(jobs)[i]| == 1
      && JobsInlineLayout(jobs)[i][0].caption == jobs[i].title
      && JobId(JobsInlineLayout(jobs)[i][0].data) == Success(jobs[i].id as int)
  {
    forall i | 0 <= i < |jobs|
      ensures JobId(JobsInlineLayout(jobs)[i][0].data) == Success(jobs[i].id as int)
    {
      JobIdRoundTrip("JOB", jobs[i].id);
    }
  }

  /** The ids the layout's buttons decode to, in row order. */
  function DecodedIds(layout: seq<seq<Button>>): seq<Result<int, CallbackError>>
    requires forall i :: 0 <= i < |layout| ==> layout[i] != []
  {
    seq(|layout|, i requires 0 <= i < |layout| => JobId(layout[i][0].data))
  }

  /** Decoding the whole layout lists the jobs' ids in the jobs' order. */
  lemma LayoutIdsInOrder(jobs: seq<Job>)
    ensures DecodedIds(JobsInlineLayout(jobs)) == seq(|jobs|, i requires 0 <= i < |jobs| => Success(jobs[i].id as int))
  {
    LayoutDecodes(jobs);
  }

  /** The labels of the three status buttons name the action a press
      performs: the opposite of the current value. */
  function InterestedLabel(j: Job): string { if j.interested then "Not Interested" else "Interested" }
  function AppliedLabel(j: Job): string { if j.applied then "Revoked" else "Applied" }
  function SkipLabel(j: Job): string { if j.skip then "Unskip" else "Skip" }

  /** The keyboard `handler_job_details` attaches: `INT_<id>` on the first
      row, `APP_<id>` and `SKIP_<id>` on the second. */
  function JobDetailsKeyboard(j: Job): (r: seq<seq<Button>>)
    ensures |r| == 2 && |r[0]| == 1 && |r[1]| == 2
  {
    [[Button(InterestedLabel(j), CallbackData("INT", j.id))],
     [Button(AppliedLabel(j), CallbackData("APP", j.id)), Button(SkipLabel(j), CallbackData("SKIP", j.id))]]
  }

  /** The callback data of the three status buttons. */
  lemma JobDetailsData(j: Job)
    ensures JobDetailsKeyboard(j)[0][0].data == CallbackData("INT", j.id)
    ensures JobDetailsKeyboard(j)[1][0].data == CallbackData("APP", j.id)
    ensures JobDetailsKeyboard(j)[1][1].data == CallbackData("SKIP", j.id)
    ensures '_' !in "INT" && '_' !in "APP" && '_' !in "SKIP"
  {
  }

  /** Each of the three status buttons decodes to the id of the job shown. */
  lemma JobDetailsDecodes(j: Job)
    ensures JobId(JobDetailsKeyboard(j)[0][0].data) == Success(j.id as int)
    ensures JobId(JobDetailsKeyboard(j)[1][0].data) == Success(j.id as int)
    ensures JobId(JobDetailsKeyboard(j)[1][1].data) == Success(j.id as int)
  {
    JobDetailsData(j);
    JobIdRoundTrip("INT", j.id);
    JobIdRoundTrip("APP", j.id);
    JobIdRoundTrip("SKIP", j.id);
  }
}
