/**
 * The bot's handlers as state transitions over the registry: a forwarded
 * message (`handle_forward`), a pressed button (`on_button`) and `/list`
 * (`list_cmd`), and traces of such events.
 */
module Controller {
  import opened Common
  import opened Links
  import opened Classifier
  import opened Menu
  import opened Registry
  import opened Reminder

  /** The parts of an incoming Telegram message the handlers read. */
  datatype Message = Message(text: Option<string>, caption: Option<string>, forwardFromChat: Option<string>)

  /** `msg.text or msg.caption or ""`: an empty text falls through to the caption. */
  function MessageText(m: Message): (t: string)
    ensures m.text.Some? && m.text.value != [] ==> t == m.text.value
    ensures (m.text.None? || m.text.value == []) ==> t == OrElse(m.caption, "")
  {
    OrElse(m.text, OrElse(m.caption, ""))
  }

  /** Shown as the source of a card when the message was not forwarded from a chat. */
  const ForwardedLabel := "переслано"

  /** The answer to a forwarded message. */
  datatype Reply =
    | NotAGiveaway
    | Card(gid: Id, source: string, deadline: Option<Timestamp>, rows: seq<seq<Button>>)

  /** The entry `handle_forward` appends for a candidate message. */
  function Stored(m: Message, gid: Id, deadline: Option<Timestamp>): Entry {
    Entry(gid, Giveaway(m.forwardFromChat, MessageText(m), ExtractLinks(MessageText(m)), deadline, false))
  }

  /**
   * `handle_forward`. The id (`str(uuid4())[:8]` in the bot) and the deadline
   * (`extract_deadline(text)`) are inputs; the id must not be in use yet.
   */
  function HandleForward(s: Store, m: Message, gid: Id, deadline: Option<Timestamp>): (r: (Store, Reply))
    requires Valid(s) && gid !in Ids(s)
    ensures Valid(r.0)
    ensures r.1.NotAGiveaway? <==> !Classify(MessageText(m)).isCandidate
    ensures r.1.NotAGiveaway? ==> r.0 == s
    ensures r.1.Card? ==>
              && r.0 == s + [Stored(m, gid, deadline)]
              && r.1 == Card(gid, OrElse(m.forwardFromChat, ForwardedLabel), deadline,
                             BuildButtons(ExtractLinks(MessageText(m)), gid))
  {
    var text := MessageText(m);
    var verdict := Classify(text);
    if !verdict.isCandidate then (s, NotAGiveaway)
    else
      var s' := Create(s, gid, m.forwardFromChat, text, verdict.links, deadline);
      assert s' == s'[..|s|] + [s'[|s|]];
      (s', Card(gid, OrElse(m.forwardFromChat, ForwardedLabel), deadline, BuildButtons(verdict.links, gid)))
  }

  /**
   * After a forward that produced a card, the new id reads back with the
   * message's chat title, text, links and deadline, not archived, and every
   * other id reads as before.
   */
  lemma ForwardLookup(s: Store, m: Message, gid: Id, deadline: Option<Timestamp>)
    requires Valid(s) && gid !in Ids(s)
    requires Classify(MessageText(m)).isCandidate
    ensures var r := HandleForward(s, m, gid, deadline).0;
            && Get(r, gid) == Some(Giveaway(m.forwardFromChat, MessageText(m), ExtractLinks(MessageText(m)), deadline, false))
            && forall other :: other != gid ==> Get(r, other) == Get(s, other)
  {
    var e := Stored(m, gid, deadline);
    GetAppend(s, e, gid);
    forall other | other != gid
      ensures Get(s + [e], other) == Get(s, other)
    {
      GetAppend(s, e, other);
      assert other in Ids(s) <==> Get(s, other).Some?;
    }
  }

  /** A message without text or caption is turned away and stores nothing. */
  lemma EmptyMessageRejected(s: Store, fromChat: Option<string>, gid: Id, deadline: Option<Timestamp>)
    requires Valid(s) && gid !in Ids(s)
    ensures HandleForward(s, Message(None, None, fromChat), gid, deadline) == (s, NotAGiveaway)
  {
    EmptyNeverCandidate();
  }

  /** Outcome of a pressed button. */
  datatype Effect =
    | Scheduled(job: Job)
    | ArchiveDone(gid: Id)
      /** callback data with neither prefix: nothing beyond answering the query */
    | Ignored
      /**
       * `ValueError` from unpacking `split(":")` or from `int(mins)`, or
       * `OverflowError` from a run date outside the `datetime` range: the handler stops
       */
    | Failed

  /** `on_button` with the chat of the pressed message and the current time as inputs. */
  function OnButton(s: Store, data: string, chat: ChatId, now: Timestamp): (r: (Store, Effect))
    ensures r.1.ArchiveDone? <==> ParseCallback(data).ArchiveRequest?
    ensures r.1.ArchiveDone? ==> r.1.gid == ParseCallback(data).gid && r.0 == Archive(s, r.1.gid)
    ensures !r.1.ArchiveDone? ==> r.0 == s
    ensures r.1.Scheduled? <==> ParseCallback(data).RemindRequest?
                                && InDatetimeRange(now + ParseCallback(data).minutes)
    ensures r.1.Scheduled? ==> r.1.job.gid == ParseCallback(data).gid && r.1.job.chat == chat
                               && r.1.job.fireAt == now + ParseCallback(data).minutes
    ensures r.1.Failed? <==> || ParseCallback(data).Malformed?
                             || (ParseCallback(data).RemindRequest?
                                 && !InDatetimeRange(now + ParseCallback(data).minutes))
  {
    match ParseCallback(data)
    case RemindRequest(gid, minutes) =>
      (match Schedule(chat, gid, minutes, now)
       case Some(job) => (s, Scheduled(job))
       case None => (s, Failed))
    case ArchiveRequest(gid) => (Archive(s, gid), ArchiveDone(gid))
    case NotAnAction => (s, Ignored)
    case Malformed => (s, Failed)
  }

  /** Pressing a card's reminder button schedules a job for that card, `minutes` from now. */
  lemma RemindButtonSchedules(s: Store, gid: Id, minutes: nat, chat: ChatId, now: Timestamp)
    requires ':' !in gid && InDatetimeRange(now + minutes)
    ensures OnButton(s, RemindToken(gid, minutes), chat, now) == (s, Scheduled(Job(chat, gid, now + minutes)))
  {
    RemindRoundTrip(gid, minutes);
  }

  /** A reminder button whose run date would pass year 9999 schedules nothing and leaves the registry alone. */
  lemma RemindPastYear9999Fails(s: Store, gid: Id, minutes: nat, chat: ChatId, now: Timestamp)
    requires ':' !in gid && !InDatetimeRange(now + minutes)
    ensures OnButton(s, RemindToken(gid, minutes), chat, now) == (s, Failed)
  {
    RemindRoundTrip(gid, minutes);
  }

  /** Pressing a card's archive button archives exactly that card. */
  lemma ArchiveButtonArchives(s: Store, gid: Id, chat: ChatId, now: Timestamp)
    requires ':' !in gid
    ensures OnButton(s, ArchiveToken(gid), chat, now) == (Archive(s, gid), ArchiveDone(gid))
  {
    ArchiveRoundTrip(gid);
  }

  /** One line of the `/list` reply. */
  datatype ListLine = ListLine(gid: Id, source: string, linkCount: nat, deadline: Option<Timestamp>)

  datatype ListReply = NoActiveCards | ActiveCards(lines: seq<ListLine>)

  const MaxListed := 20
  const UnknownSource := "unknown"

  /** One `/list` line: id, the source chat title or `unknown` when it is missing or empty, link count, deadline. */
  function LineOf(e: Entry): (r: ListLine)
    ensures r.gid == e.id && r.linkCount == |e.record.links| && r.deadline == e.record.deadline
    ensures r.source == UnknownSource <==> e.record.fromChat.None? || e.record.fromChat.value in {[], UnknownSource}
    ensures r.source != UnknownSource ==> Some(r.source) == e.record.fromChat
  {
    ListLine(e.id, OrElse(e.record.fromChat, UnknownSource), |e.record.links|, e.record.deadline)
  }

  /** `list_cmd`: up to twenty non-archived giveaways, oldest first. */
  function ListCmd(s: Store): (r: ListReply)
    ensures r.NoActiveCards? <==> forall e :: e in s ==> e.record.archived
    ensures r.ActiveCards? ==> 0 < |r.lines| <= MaxListed
    ensures r.ActiveCards? ==> |r.lines| == Min(MaxListed, |Active(s)|)
    ensures r.ActiveCards? ==> forall k :: 0 <= k < |r.lines| ==> r.lines[k] == LineOf(Active(s)[k])
  {
    var active := Active(s);
    if active == [] then
      assert forall e :: e in s ==> e.record.archived;
      NoActiveCards
    else
      assert active[0] in s;
      var shown := active[..Min(MaxListed, |active|)];
      ActiveCards(seq(|shown|, k requires 0 <= k < |shown| => LineOf(shown[k])))
  }

  /** An inbound event. */
  datatype Event =
    | Forward(m: Message, gid: Id, deadline: Option<Timestamp>)
    | Press(data: string, chat: ChatId, now: Timestamp)
    | ListRequest

  /**
   * The registry after one event. A forward whose drawn id is already in use
   * stores nothing: the id generator has to draw again (a later event). No
   * event removes a card or un-archives one.
   */
  function Step(s: Store, ev: Event): (r: Store)
    requires Valid(s)
    ensures Valid(r)
    ensures Ids(s) <= Ids(r)
    ensures forall id :: IsArchived(s, id) ==> IsArchived(r, id)
    ensures ev.Forward? && ev.gid in Ids(s) ==> r == s
  {
    match ev
    case Forward(m, gid, deadline) =>
      if gid in Ids(s) then s
      else
        if Classify(MessageText(m)).isCandidate then
          ForwardLookup(s, m, gid, deadline);
          HandleForward(s, m, gid, deadline).0
        else HandleForward(s, m, gid, deadline).0
    case Press(data, chat, now) =>
      var r := OnButton(s, data, chat, now).0;
      if ParseCallback(data).ArchiveRequest? then
        ArchivePreservesIds(s, ParseCallback(data).gid);
        ArchiveLookup(s, ParseCallback(data).gid);
        r
      else r
    case ListRequest => s
  }

  /** The registry after a sequence of events; no card is removed or un-archived. */
  function Run(s: Store, evs: seq<Event>): (r: Store)
    requires Valid(s)
    ensures Valid(r)
    ensures Ids(s) <= Ids(r)
    ensures forall id :: IsArchived(s, id) ==> IsArchived(r, id)
    decreases |evs|
  {
    if evs == [] then s else Run(Step(s, evs[0]), evs[1..])
  }

  lemma {:induction false} RunAppend(s: Store, a: seq<Event>, b: seq<Event>)
    requires Valid(s)
    ensures Run(s, a + b) == Run(Run(s, a), b)
    decreases |a|
  {
    if a == [] {
      assert a + b == b;
    } else {
      assert (a + b)[0] == a[0] && (a + b)[1..] == a[1..] + b;
      RunAppend(Step(s, a[0]), a[1..], b);
    }
  }

  /**
   * A reminder is suppressed by an archive press at any point before it fires:
   * once the card's archive button is pressed in registry `s`, whatever events
   * follow, the job finds the record archived and sends nothing.
   */
  lemma ArchiveSuppressesReminder(s: Store, chat: ChatId, now: Timestamp, after: seq<Event>, job: Job)
    requires Valid(s) && ':' !in job.gid && job.gid in Ids(s)
    ensures Fire(Run(s, [Press(ArchiveToken(job.gid), chat, now)] + after), job).None?
  {
    var gid := job.gid;
    var press := Press(ArchiveToken(gid), chat, now);
    RunAppend(s, [press], after);
    assert [press][1..] == [];
    ArchiveButtonArchives(s, gid, chat, now);
    ArchiveLookup(s, gid);
    assert IsArchived(Run(s, [press]), gid);
  }

  /** The fire-time guard: nothing is sent for an unknown or archived id. */
  lemma GuardSilent(s: Store, job: Job)
    requires job.gid !in Ids(s) || IsArchived(s, job.gid)
    ensures Fire(s, job) == None
  {
  }


  /** Archiving the middle one of three active entries leaves the outer two in the listing. */
  lemma ListOfThreeAfterArchivingMiddle(e1: Entry, e2: Entry, e3: Entry)
    requires e1.id != e2.id && e2.id != e3.id && e1.id != e3.id
    requires !e1.record.archived && !e2.record.archived && !e3.record.archived
    ensures ListCmd(Archive([e1, e2, e3], e2.id)) == ActiveCards([LineOf(e1), LineOf(e3)])
  {
    var e2' := Entry(e2.id, e2.record.(archived := true));
    ArchiveMiddle(e1, e2, e3);
    ActiveOfThree(e1, e2', e3);
    var r := ListCmd([e1, e2', e3]);
    assert r.lines == [LineOf(e1), LineOf(e3)];
  }

  lemma ArchiveMiddle(e1: Entry, e2: Entry, e3: Entry)
    requires e1.id != e2.id && e2.id != e3.id
    ensures Archive([e1, e2, e3], e2.id) == [e1, Entry(e2.id, e2.record.(archived := true)), e3]
  {
    var s := [e1, e2, e3];
    assert s[1..] == [e2, e3] && s[1..][1..] == [e3] && [e3][1..] == [];
  }

  lemma ActiveOfThree(e1: Entry, e2: Entry, e3: Entry)
    requires !e1.record.archived && e2.record.archived && !e3.record.archived
    ensures Active([e1, e2, e3]) == [e1, e3]
  {
    var s := [e1, e2, e3];
    assert s[1..] == [e2, e3] && s[1..][1..] == [e3] && [e3][1..] == [];
  }

  /** A forwarded candidate with a fresh id is stored as one new entry at the end of the registry. */
  lemma StepForward(s: Store, m: Message, gid: Id, deadline: Option<Timestamp>)
    requires Valid(s) && gid !in Ids(s)
    requires Classify(MessageText(m)).isCandidate
    ensures Step(s, Forward(m, gid, deadline)) == s + [Stored(m, gid, deadline)]
    ensures Valid(s + [Stored(m, gid, deadline)])
    ensures Ids(s + [Stored(m, gid, deadline)]) == Ids(s) + {gid}
  {
    AppendFresh(s, Stored(m, gid, deadline));
  }

  /** A forward with a fresh id at the head of a run appends its entry and the run goes on from there. */
  lemma RunForward(s: Store, m: Message, gid: Id, deadline: Option<Timestamp>, rest: seq<Event>)
    requires Valid(s) && gid !in Ids(s)
    requires Classify(MessageText(m)).isCandidate
    ensures Valid(s + [Stored(m, gid, deadline)])
    ensures Ids(s + [Stored(m, gid, deadline)]) == Ids(s) + {gid}
    ensures Run(s, [Forward(m, gid, deadline)] + rest) == Run(s + [Stored(m, gid, deadline)], rest)
  {
    var evs := [Forward(m, gid, deadline)] + rest;
    assert evs[0] == Forward(m, gid, deadline) && evs[1..] == rest;
    StepForward(s, m, gid, deadline);
  }

  /** A run of one archive press archives that card. */
  lemma RunArchivePress(s: Store, gid: Id, chat: ChatId, now: Timestamp)
    requires Valid(s) && ':' !in gid
    ensures Run(s, [Press(ArchiveToken(gid), chat, now)]) == Archive(s, gid)
  {
    ArchiveButtonArchives(s, gid, chat, now);
    ArchivePreservesIds(s, gid);
    assert [Press(ArchiveToken(gid), chat, now)][1..] == [];
  }

  /**
   * A reminder set from a card's button and followed, at any later point, by
   * the card's archive button never sends its notice.
   */
  lemma RemindThenArchiveIsSilent(s: Store, gid: Id, minutes: nat, chat: ChatId, now: Timestamp,
                                  between: seq<Event>, archivedAt: Timestamp, after: seq<Event>)
    requires Valid(s) && ':' !in gid && gid in Ids(s)
    ensures InDatetimeRange(now + minutes) ==>
              OnButton(s, RemindToken(gid, minutes), chat, now).1 == Scheduled(Job(chat, gid, now + minutes))
    ensures var press := Press(RemindToken(gid, minutes), chat, now);
            Fire(Run(s, [press] + between + [Press(ArchiveToken(gid), chat, archivedAt)] + after),
                 Job(chat, gid, now + minutes)).None?
  {
    var press := Press(RemindToken(gid, minutes), chat, now);
    var archive := Press(ArchiveToken(gid), chat, archivedAt);
    if InDatetimeRange(now + minutes) {
      RemindButtonSchedules(s, gid, minutes, chat, now);
    }
    var before := [press] + between;
    assert [press] + between + [archive] + after == before + ([archive] + after);
    RunAppend(s, before, [archive] + after);
    ArchiveSuppressesReminder(Run(s, before), chat, archivedAt, after, Job(chat, gid, now + minutes));
  }
}
