/**
 * Reminders: `schedule_reminder` registers a one-shot job; when the job fires
 * it looks the giveaway up again and sends a notice only if the record still
 * exists and is not archived.
 */
module Reminder {
  import opened Common
  import opened Registry
  import opened Menu

  /** A scheduled reminder: who to notify, about which giveaway, and when. */
  datatype Job = Job(chat: ChatId, gid: Id, fireAt: Timestamp)

  /** The reminder message: its target chat, the giveaway id and the card's menu. */
  datatype Notice = Notice(chat: ChatId, gid: Id, rows: seq<seq<Button>>)

  /** The last minute a `datetime` can hold, 9999-12-31 23:59, one minute short of 3652059 days after `datetime.min`. */
  const LastMinute: Timestamp := 3652059 * 1440 - 1

  /** Times a `datetime` can represent: years 1 to 9999. */
  predicate InDatetimeRange(t: Timestamp) {
    0 <= t <= LastMinute
  }

  /**
   * `schedule_reminder`: `run_date = now + minutes`, no matter whether the id
   * exists; `None` when the sum leaves the `datetime` range and Python raises
   * `OverflowError` before any job is added.
   */
  function Schedule(chat: ChatId, gid: Id, minutes: int, now: Timestamp): (r: Option<Job>)
    ensures r.Some? <==> InDatetimeRange(now + minutes)
    ensures r.Some? ==> r.value.chat == chat && r.value.gid == gid && r.value.fireAt - now == minutes
  {
    if InDatetimeRange(now + minutes) then Some(Job(chat, gid, now + minutes)) else None
  }

  /** The `job` closure, run against the registry as it is at fire time. */
  function Fire(s: Store, job: Job): (r: Option<Notice>)
    ensures r.Some? <==> job.gid in Ids(s) && !Get(s, job.gid).value.archived
    ensures r.Some? ==> r.value == Notice(job.chat, job.gid, BuildButtons(Get(s, job.gid).value.links, job.gid))
  {
    match Get(s, job.gid)
    case None => None
    case Some(g) => if g.archived then None else Some(Notice(job.chat, job.gid, BuildButtons(g.links, job.gid)))
  }
}
