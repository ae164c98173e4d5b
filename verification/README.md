# Giveaway helper bot — a Dafny model of its core

The bot receives forwarded Telegram posts, decides whether a post announces a
giveaway (a keyword such as `giveaway`, `stars`, `розыгрыш`, or any link),
extracts the links, and stores a giveaway card in an in-memory registry. Each
card gets an action menu: open up to four links, remind in 10 or 60 minutes,
archive. A reminder job looks the card up again when it fires and stays silent
if the card is gone or archived. `/list` shows up to twenty active cards.

This project models that core as pure functions over immutable data:

- `Chars` — Python's `\s`, `\w` and `str.lower()`. `\w` covers ASCII and the
  Cyrillic letters U+0400–U+0481 and U+048A–U+04FF. Lower-casing covers A–Z
  and the Cyrillic capitals U+0400–U+042F (`Ѐ`–`Џ`, `А`–`Я`).
- `Links` — `re.findall(r"(https?://[^\s]+)", text, re.IGNORECASE)` as a
  left-to-right scan, with a separate description of a single match
  (`IsMatch`). The lemmas prove the scan sound, ordered, non-overlapping and
  complete.
- `Keywords` — the nine `\b…\b` patterns, each written out as its list of
  whole-word alternatives, searched in the lower-cased text.
- `Classifier` — the candidate rule: a keyword hit or at least one link.
- `Tokens` — `str.split(":")` with its inverse `":".join`, decimal
  formatting and `int()`.
- `Menu` — `build_buttons` as rows of plain button data, the callback tokens
  `remind:<gid>:<minutes>` and `archive:<gid>`, and the parsing in `on_button`.
- `Registry` — the `GIVEAWAYS` dict as a sequence of entries with distinct ids,
  kept in insertion order as a Python dict iterates. Operations: lookup,
  create, archive and the active listing.
- `Reminder` — a reminder job and the decision it makes at fire time.
- `Controller` — `handle_forward`, `on_button` and `list_cmd` as transitions
  of the registry, plus traces of inbound events for the properties that span
  several events: archiving is never undone, and archiving suppresses a
  pending reminder.

Time is a whole number of minutes since 0001-01-01 00:00, Python's
`datetime.min`; a `datetime` reaches no further than 9999-12-31 23:59. The id of
a new card, its deadline and the current time are inputs to the model.

## Model

| member | source | states |
|---|---|---|
| `Common.OrElse` | bot.py:137 | Python's `x or fallback` on an optional string: the value when it is present and non-empty, otherwise the fallback (so an empty chat title also reads as `unknown`) |
| `Chars.Lower` | bot.py:35 | lower-casing one character leaves no capital of A–Z or U+0400–U+042F and fixes every character outside those ranges |
| `Chars.LowerOfUpper` | bot.py:35 | which lower-case letter a capital becomes: `A`–`Z` and `А`–`Я` move up by 32 code points, `Ѐ`–`Џ` by 80 |
| `Chars.LowerKeepsClasses` | bot.py:35 | lower-casing keeps word characters and whitespace characters in their class, so it moves no `\b` and no `\s` |
| `Chars.LowerStr` | bot.py:35 | `text.lower()` keeps the length and lower-cases each character in place |
| `Links.SchemeLen` | bot.py:28 | the scheme part at a position is 7 long exactly when `http://` starts there and 8 long exactly when `https://` does, with the letters matched case-insensitively |
| `Links.RunEnd` | bot.py:28 | the greedy `[^\s]+` run stops at the first whitespace character or at the end of the text, with no whitespace before that point |
| `Links.MatchAt` | bot.py:28-32 | the match attempt at one position: it succeeds exactly when a scheme starts there and a non-whitespace character follows it, and the match it reports ends within the text and satisfies the reference description |
| `Links.MatchAtIsMatch` | bot.py:28 | the scanner finds a match at a position exactly when the reference description holds: a scheme, at least one further non-whitespace character, and an end at whitespace or at the end of the text |
| `Links.RunEndUnique` | bot.py:28 | any end of a whitespace-free stretch that stops at whitespace or at the end of the text is the greedy run's end |
| `Links.ExtractLinks` | bot.py:31-32 | there is one link per span found; empty text gives no links |
| `Links.ScanFrom` | bot.py:31-32 | the scan resumed at a position reports only spans that start at or after it, are non-empty, and end within the text |
| `Links.ScanSound` | bot.py:31-32 | every span the scan reports is a match that starts at its start and ends at its end |
| `Links.ScanOrdered` | bot.py:31-32 | each reported span ends no later than the next one starts |
| `Links.ScanComplete` | bot.py:31-32 | every position where a match starts lies inside some reported span |
| `Links.SpansAreMatches` | bot.py:31-32 | every span `findall` reports is a match in the sense of the reference description |
| `Links.SpansOrdered` | bot.py:31-32 | reported spans run strictly left to right with a gap between neighbours, so they never overlap |
| `Links.SpansComplete` | bot.py:31-32 | no match is missed: every position where a match could start lies inside a reported span |
| `Links.LinkShape` | bot.py:28-32 | every extracted link starts with `http://` or `https://` in any letter case, has at least one character after the scheme, and contains no whitespace |
| `Links.LinksInTextOrder` | bot.py:31-32 | the k-th link is the text of the k-th span, and spans ascend through the text |
| `Links.MatchGivesLink` | bot.py:31-32 | text in which a match starts anywhere yields at least one link |
| `Keywords.SearchFrom` | bot.py:36 | `re.search` for `\bw\b`: the result is the leftmost whole-word occurrence at or after the start, and "none" means there is no occurrence at all |
| `Keywords.PatternFound` | bot.py:36 | a pattern with optional letters (`gift(s)?`) matches exactly when one of its spelled-out alternatives occurs as a whole word |
| `Keywords.AnyPatternFrom` | bot.py:36 | `any(...)` over the remaining patterns is true exactly when one of them has a whole-word hit |
| `Keywords.MatchesKeywords` | bot.py:34-36 | true exactly when some alternative of some keyword pattern occurs as a whole word in the lower-cased text |
| `Keywords.EmptyHasNoKeyword` | bot.py:35 | empty text holds no keyword |
| `Keywords.KeywordsIgnoreCase` | bot.py:35 | lower-casing the text first does not change the result |
| `Keywords.KeywordInContext` | bot.py:23-26 | a keyword bordered by non-word characters or by the ends of the text is found, whatever its letter case |
| `Classifier.Classify` | bot.py:80-81 | the verdict's links are the extracted links, and the text is a candidate exactly when it has a keyword hit or at least one link |
| `Classifier.EmptyNeverCandidate` | bot.py:79-83 | empty text is not a candidate and has no links |
| `Classifier.LinkMakesCandidate` | bot.py:80-81 | text in which a link starts is a candidate whatever its words |
| `Classifier.NoKeywordNoLinkRejected` | bot.py:81-85 | text with no whole-word keyword and no position where a link starts is rejected |
| `Classifier.GiveawayPostIsCandidate` | bot.py:24 | "Giveaway! Win Stars" is a candidate: the capitalised keyword followed by punctuation matches |
| `Tokens.Split` | bot.py:122 | `split(":")` returns at least one piece, the pieces contain no separator, joining them with the separator gives the input back, and there is one piece exactly when the input has no separator |
| `Tokens.SplitPrefix` | bot.py:122 | a separator-free head followed by a separator splits off as the first piece |
| `Tokens.SplitJoin` | bot.py:122 | splitting the join of separator-free pieces gives back exactly those pieces |
| `Tokens.NatToString` | bot.py:64-65 | formatting a number gives a non-empty string of decimal digits with no leading zero, whose value is the number |
| `Tokens.ParseInt` | bot.py:123 | `int(mins)` accepts exactly an optional `+` or `-` followed by one or more ASCII digits; the value is the digits' decimal value, negated after `-` |
| `Tokens.ParseSigned` | bot.py:123 | a formatted number with a leading `-` reads back as its negation, with a leading `+` as itself |
| `Tokens.ParseFormat` | bot.py:123 | reading back a formatted number gives the number |
| `Menu.BuildButtons` | bot.py:58-69 | the menu has `min(4, number of links) + 2` rows: one row per link for the first links in order, then the 10- and 60-minute reminder buttons for the id, then the archive button |
| `Menu.ParseCallback` | bot.py:121-127 | data without either prefix is no action; an archive request is exactly `archive:<gid>` with a colon-free id; a reminder request is `remind:<gid>:<n>` with a colon-free id and `n` an `int()` literal, whose value is the minutes |
| `Menu.RemindToken` | bot.py:64-65 | the reminder button's callback data is `remind:`, the id, `:` and the minutes in decimal, so it carries the `remind:` prefix |
| `Menu.ArchiveToken` | bot.py:68 | the archive button's callback data is `archive:` followed by the id; it carries the `archive:` prefix and not the `remind:` one |
| `Menu.StartsWith` | bot.py:121-125 | `str.startswith`: true exactly when the prefix matches the data's first characters one by one, that is, when the data is the prefix followed by some rest |
| `Menu.RemindRoundTrip` | bot.py:121-123 | for an id without `:`, parsing the reminder token gives back exactly that id and number of minutes |
| `Menu.RemindParses` | bot.py:121-123 | any `remind:<gid>:<n>` with colon-free `gid` and `n` parses to a reminder request for `gid` with `int(n)` minutes when `n` is an `int()` literal (so `-5` and `+007` are accepted with their signed value), and is malformed otherwise |
| `Menu.ArchiveRoundTrip` | bot.py:125-126 | for an id without `:`, parsing the archive token gives back exactly that id |
| `Menu.MenuCallbacksTargetCard` | bot.py:58-69 | every callback button of a card's menu parses to a 10- or 60-minute reminder or an archive request for that card, and every URL button opens one of its links |
| `Registry.Get` | bot.py:109 | lookup finds a record exactly when the id is stored, and what it finds is stored under that id |
| `Registry.GetAt` | bot.py:109 | with distinct ids, looking up the id of any stored entry gives exactly that entry's record |
| `Registry.GetAppend` | bot.py:89-95 | after appending an entry, a stored id reads as before, the new id reads as the new record, and any other id is absent |
| `Registry.AppendFresh` | bot.py:89-95 | appending an entry under an unused id keeps ids distinct and adds exactly that id |
| `Registry.Create` | bot.py:87-95 | under a fresh id the new record reads back with the given chat title, text, links and deadline and `archived = false`; every other id reads as before; existing entries keep their order and the new one comes last |
| `Registry.Archive` | bot.py:126-127 | ids and order are unchanged; exactly the entries with that id become archived, archived ones stay archived, no other field changes, and an unknown id leaves the store unchanged |
| `Registry.ArchivePreservesIds` | bot.py:127 | archiving keeps the set of ids and keeps them distinct |
| `Registry.ArchiveLookup` | bot.py:127 | after archiving, the id reads back as the same record with `archived = true` (or still absent), and every other id reads as before |
| `Registry.ArchiveIdempotent` | bot.py:127 | archiving twice equals archiving once |
| `Registry.Active` | bot.py:131 | the active entries are exactly the stored entries that are not archived |
| `Registry.ActiveAppend` | bot.py:131 | the active entries of a concatenation are the concatenation of the active entries, so insertion order is kept |
| `Registry.ArchiveLeavesActive` | bot.py:131 | archiving an id removes exactly that id's entry from the active entries |
| `Registry.Overwrite` | bot.py:89-95 | assigning to a stored id keeps the length, the id at every position and the set of ids; the id then reads as the assigned record and every other id reads as before |
| `Registry.AssignAsWritten` | bot.py:89-95 | the dict assignment as written: the id then reads back as the assigned record and every other id reads as before; a stored id keeps its position and the other ids keep theirs, a new id is appended at the end |
| `Registry.CollisionUnarchives` | bot.py:87-95 | with the assignment as written, reusing an archived record's id makes that id read as not archived |
| `Reminder.Schedule` | bot.py:106-107 | a job is made exactly when `now + minutes` is a representable `datetime` (otherwise `OverflowError`); it targets the given chat and id and fires `minutes` after now, whether or not the id is stored |
| `Reminder.Fire` | bot.py:108-113 | at fire time a notice is sent exactly when the id is stored and not archived; the notice goes to the job's chat with the card's menu built from the stored links |
| `Controller.MessageText` | bot.py:79 | the message text when it is non-empty, otherwise the caption, otherwise the empty string |
| `Controller.HandleForward` | bot.py:77-104 | the message is turned away exactly when it is not a candidate, and then the registry is unchanged; otherwise one entry holding the message's chat title, text, links and deadline, not archived, is appended after the existing ones, and the reply carries the id, the chat title or `переслано`, and the menu |
| `Controller.ForwardLookup` | bot.py:87-95 | after a forward that made a card, the new id reads back with the message's chat title, text, links and deadline and `archived = false`, and every other id reads as before |
| `Controller.EmptyMessageRejected` | bot.py:79-85 | a message with neither text nor caption is turned away and stores nothing |
| `Controller.OnButton` | bot.py:116-128 | only an archive press changes the registry, and it archives the parsed id; a reminder press schedules a job for the parsed id and minutes in the pressing chat exactly when the run date is a representable `datetime`; malformed data or an out-of-range run date fails; other data does nothing |
| `Controller.RemindButtonSchedules` | bot.py:121-123 | pressing a card's reminder button, with a run date before year 10000, schedules a job for that card in that chat, `minutes` from now, and leaves the registry unchanged |
| `Controller.RemindPastYear9999Fails` | bot.py:106-123 | a reminder button whose run date would pass 9999-12-31 23:59 schedules nothing and leaves the registry unchanged |
| `Controller.ArchiveButtonArchives` | bot.py:125-127 | pressing a card's archive button archives exactly that card |
| `Controller.LineOf` | bot.py:137 | a listing line carries the card's id, its number of links and its deadline, and its source is the chat title, or `unknown` when the title is missing or empty |
| `Controller.ListCmd` | bot.py:130-138 | "no active cards" exactly when every stored card is archived; otherwise between 1 and 20 lines, one per active card in insertion order, each with the id, the chat title or `unknown`, the number of links and the deadline |
| `Controller.ListOfThreeAfterArchivingMiddle` | bot.py:131-137 | with three active cards and the middle one archived, the listing shows the first and the third |
| `Controller.Step` | bot.py:77-128 | one inbound event keeps ids distinct, never removes a card and never sets `archived` back to false; a forward that draws a stored id leaves the registry alone |
| `Controller.Run` | bot.py:77-128 | a sequence of events keeps ids distinct, never removes a card and never sets `archived` back to false |
| `Controller.StepForward` | bot.py:87-95 | a candidate forward with an unused id appends its entry at the end, and the registry stays valid with that id added |
| `Controller.RunForward` | bot.py:87-95 | a run that starts with such a forward continues from the registry with the entry appended |
| `Controller.RunArchivePress` | bot.py:125-127 | a run of one archive-button press archives exactly that card |
| `Controller.ArchiveSuppressesReminder` | bot.py:108-110 | once the archive button of a stored card is pressed, a job for that card that fires after any further events sends nothing |
| `Controller.GuardSilent` | bot.py:109-110 | a job for an unknown or archived id sends nothing |
| `Controller.RemindThenArchiveIsSilent` | bot.py:106-114 | a reminder set from a card's button (scheduled whenever its run date is representable), followed at any later point by that card's archive button, never sends its notice |

## Left out

- `extract_deadline` (bot.py:38-56) is not modelled. It relies on dateutil's fuzzy parser and the current time. The deadline is an opaque optional timestamp passed into `HandleForward` and stored as given.
- Id generation (`str(uuid4())[:8]`, bot.py:87) is not modelled. The id is an input. `Registry.Create` and `Controller.HandleForward` require it to be unused; see Findings. In event traces, a forward whose id is already taken stores nothing, and a later forward stands for the retry.
- Registry.Create: requires a fresh id, which the bot does not check; this is the corrected behaviour recorded under Findings.
- Controller.HandleForward: requires a fresh id for the same reason.
- The APScheduler thread and real time are not modelled (bot.py:20-21, 114). Only the decision the job makes at fire time is modelled (`Reminder.Fire`), against the registry as it is then. When a job fires, and what happens with a negative delay or a run date in the past, is left to the scheduler. The current time is taken to be a representable `datetime`.
- Concurrency between handlers and the scheduler thread is not modelled. Events are applied one at a time, in some order; each dict access in the bot is a single step.
- The Telegram transport is not modelled: replies, `edit_message_text` acknowledgements, `q.answer()`, `create_task`, keyboard objects, `run_polling` and handler registration (bot.py:71-75, 101-104, 113, 118, 124, 128, 138-149). Buttons are plain data. Replies are datatypes holding the values the bot formats into text; the exact wording is not modelled.
- Token loading and logging (bot.py:13-16) are not modelled.
- The `deadline` argument of `build_buttons` is unused by the bot and is dropped.
- Chars.IsWordChar: Python's Unicode `\w` is modelled only for ASCII letters, digits, `_` and the Cyrillic letters U+0400–U+0481 and U+048A–U+04FF. Letters of other scripts count as non-word characters, so the model finds `ton` in `éton`, where the bot's `\bton\b` does not match because `é` is a word character.
- Chars.Lower: `str.lower()` is modelled only for A–Z and the Cyrillic capitals U+0400–U+042F. Other capitals are left unchanged, including the Cyrillic ones from U+0460 to U+04FF such as `Ѣ`, which Python turns into `ѣ`. The model always keeps the length, where Python may lengthen some characters, such as `İ`.
- Links.SchemeLen: IGNORECASE is modelled as comparing lower-cased characters. Python's extra case-folding equivalences, such as `ſ` matching `s`, are left out.
- Tokens.ParseInt: Python's `int()` also accepts surrounding whitespace, `_` between digits and non-ASCII decimal digits. These are parsed as malformed here. The bot's own buttons never produce such strings.
- Registry.Archive: the bot's archive branch returns nothing, so the model reports no "changed" flag; `Registry.ArchiveIdempotent` states that a second archive changes nothing.
- Controller.OnButton: a malformed `remind:` or `archive:` token raises `ValueError` before any reply (bot.py:122-123, 126), and a reminder whose run date leaves the `datetime` range raises `OverflowError` (bot.py:107); the model returns `Failed` and leaves the registry unchanged.

## Findings

| source | as written | input that shows it | evidently intended | confidence | as-written member | corrected member |
|---|---|---|---|---|---|---|
| bot.py:87-95 | `GIVEAWAYS[gid] = {...}` with `gid` the first 8 hex digits of a random UUID, and no check whether `gid` is already stored. On a collision the dict keeps the old position and replaces the record, so an archived card comes back with `archived = False` | two forwarded giveaways that draw the same 8-hex-digit id, the first archived before the second arrives (32 random bits: even odds of some collision after roughly 77,000 cards) | a new id is checked against the registry and never overwrites a stored card, so an archived card stays archived | medium; not executed | `Registry.CollisionUnarchives` | `Controller.Run` |
