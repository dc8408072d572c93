# Out-of-office auto-reply bot, modelled in Dafny

This project models `bot.js`, a messaging bot that sends an "outside
operating hours" auto-reply to direct messages. Within one run, with messages
handled one at a time and every write of the data file succeeding, it answers
each sender at most once per calendar day. It never answers group chats, and
never answers a fixed list of exempt numbers. The model covers these parts of the bot:

- **Working hours** (`Clock`): the test the bot applies to the current local
  time. A message is outside working hours before 10:00 or after 18:00.
  Timestamps are an explicit `(year, month, day, hour, minute)` value passed in
  as `now`, so the host clock is never read.
- **Store and gate** (`Store`): the startup load of the sender → last-reply
  map, and the once-per-calendar-day gate `CanSendMessage`.
- **Message handler** (`Router`): the sender id (the part before the first
  `@`), the group test (the address contains `@g.us`), and `Step`, a pure
  function. `Step` maps a state and one message to an outcome (`Exempt`,
  `Group`, `Declined`, `Replied`, `SendFailed`) and the next state.
  `Outcomes` runs `Step` over a sequence of messages, handled one at a time.
- **The running bot** (`Bot.Bot`): a class that holds the exemption set, the
  mutable in-memory map `sentNumbers` and a ghost copy `persisted` of the
  data file. Its method `Handle` updates the map in place in the bot's own
  order: exempt, then group, then working hours plus gate, then send, record
  and save. `Handle` is proved equal to `Step`.
- **Properties** (`Policy`): which messages get answered, what a reply
  records, persistence across a restart, and at most one reply per sender per
  day over any stream of same-day messages.

The working-hours window follows the code, which uses 10 and 18. The comment
above it says 09:00–15:00, and the reply text announces 09:00–18:00. In the
code, the clause `hours === 10 && minutes < 0` can never hold. So a message at
09:30 counts as outside working hours and gets a reply (`Clock.NineOClockHourIsOutside`).

Two parameters of `Handle` stand for outcomes the model cannot compute:

- `sendOk` says whether `message.reply` succeeded. When it throws, the
  handler stops before the record at line 114, so nothing is recorded.
- `saveOk` says whether the data file was written. When `writeFileSync`
  throws, the in-memory entry is already updated; the model keeps the
  previous file contents (see "## Left out" for what the source's file may
  hold instead).

## Model

| member | source | states |
|---|---|---|
| `Clock.IsOutsideWorkingHours` | bot.js:43-53 | for every real clock reading, "outside" is exactly "minute of day not in [10:00, 18:00]" |
| `Clock.OutsideCases` | bot.js:49-52 | the `hours == 10 && minutes < 0` disjunct never holds; outside iff hour < 10, hour > 18, or 18:mm with mm > 0 |
| `Clock.Boundaries` | bot.js:49-50 | 09:59 and 18:01 are outside; 10:00 and 18:00 are inside |
| `Clock.NineOClockHourIsOutside` | bot.js:48-52 | every minute of the nine o'clock hour counts as outside working hours |
| `Store.Load` | bot.js:16-24 | a file that cannot be read or parsed gives the empty store; otherwise the store is the parsed contents |
| `Store.UnknownSenderMaySend` | bot.js:32-33 | a sender with no entry may always be answered |
| `Store.GateAfterRecord` | bot.js:35-39 | after recording `sent`, the gate refuses exactly the moments on the same calendar date as `sent`, whatever the time of day |
| `Store.MidnightSeparatesDays` | bot.js:38-39 | a reply at 23:59 does not block 00:01 the next day; one at 00:01 blocks 23:59 the same day |
| `Store.GateOfOthersUnchanged` | bot.js:32-39 | recording one sender leaves the gate for every other sender unchanged |
| `Router.SenderId` | bot.js:77 | the id is a prefix of the address, contains no '@', and is followed by '@' unless it is the whole address |
| `Router.Contains` | bot.js:84 | true iff the pattern occurs at some position of the string |
| `Store.CanSendMessage` | bot.js:32-40 | the gate refuses exactly when the sender has an entry on the same calendar date as `now`; with `Store.GateAfterRecord` and `Store.UnknownSenderMaySend` this is the once-per-date rule |
| `Router.IsGroupOrigin` | bot.js:84 | an origin is a group exactly when "@g.us" occurs somewhere in the address |
| `Router.Step` | bot.js:75-119 | the handler's decision: a reply is attempted only for a non-exempt direct message outside hours that the gate allows; a delivered reply records `now` for the sender; every other outcome leaves the state unchanged (`Bot.Bot.Handle` is proved equal to it) |
| `Router.Startup` | bot.js:17-24 | after startup, the in-memory store and the data file both hold the loaded store |
| `Bot.Bot.constructor` | bot.js:17-24 | the bot starts with the fixed exemption list and the loaded store, mirrored in the data file; an unreadable file gives empty maps |
| `Bot.Bot.Handle` | bot.js:75-119 | the in-place handler takes the transition `Step` prescribes; only a delivered reply changes the store, and only at the sender's id |
| `Policy.SenderIdOfAddress` | bot.js:76-77 | the sender id of "<id>@<domain>" is `id` when `id` has no '@' |
| `Policy.DirectAndGroupAddresses` | bot.js:84 | "<id>@c.us" is not a group origin; "<id>@g.us" is |
| `Policy.ExemptNeverReplies` | bot.js:79-82 | an exempt sender gets outcome Exempt and the state is unchanged |
| `Policy.GroupNeverReplies` | bot.js:84-104 | a group origin is never answered and leaves the state unchanged, whether or not fetching its metadata fails |
| `Policy.DirectReplyIff` | bot.js:107-111 | a non-exempt direct message gets a reply attempt iff it is outside hours and the gate allows, and a reply iff the send also succeeds |
| `Policy.ReplyRecordsOnlySender` | bot.js:111-115 | a reply records `now` for the sender and keeps every other entry; a failed send or any other outcome records nothing |
| `Policy.SameDayRepeatDeclined` | bot.js:108-114 | after a reply, a direct message from the same sender on the same calendar date is declined and changes nothing |
| `Policy.OtherDayRepliesAgain` | bot.js:108-114 | after a reply, a message from the same sender on another date and outside hours is answered again |
| `Policy.SavedStoreStaysPersisted` | bot.js:113-115 | while writes succeed, the data file mirrors the in-memory store after every message |
| `Policy.RestartAfterSaveStillDeclines` | bot.js:114-115 | a saved reply survives a restart: the same sender is still declined that day |
| `Policy.RestartAfterFailedSaveRepeats` | bot.js:114-115 | when the write failed, a restart forgets the reply and a first-time sender is answered again the same day |
| `Policy.RecordedSenderNotRepliedAgain` | bot.js:107-115 | once a sender is recorded on a day, no later message from it that day is answered |
| `Policy.OneReplyPerSenderPerDay` | bot.js:107-115 | in any sequence of same-day messages, no sender is answered twice |
| `Policy.ThreeMessageScenario` | bot.js:75-119 | a direct chat gets a reply at 20:00, none at 20:30 the same day, and a reply at 08:00 the next day |

## Left out

- The messaging client, puppeteer options, QR rendering and the `qr`/`ready` handlers (bot.js:1-2, 56-72, 122): a foreign library and its transport.
- File I/O and JSON (bot.js:19-23, 27-29): the data file is the ghost map `persisted`. A readable and parsable file is `Some(map)`; anything else is `None`. `saveData` becomes "`persisted` := the whole in-memory map" when `saveOk` holds.
- JSON content that parses to something other than an object of valid date strings: a non-object (such as `null`), an invalid date string, or a falsy value. The model's store holds only well-formed timestamps.
- The clock and timezones: `new Date()`, `toDateString`, `toISOString`. `now` is one explicit local timestamp per message. It stands for the three separate clock readings at lines 36, 44 and 114, so a message handled across midnight is not modelled. Stored ISO strings are in UTC, but they parse back to the same instant, so the model keeps local timestamps.
- Calendar arithmetic: timestamps are not normalised (the day after the 31st is not computed). `SameDay` compares year, month and day.
- Group metadata fetching and all console logging (bot.js:85-102): only their outcome is modelled, which is no reply and no store change.
- Asynchronous, possibly interleaved handler invocations: messages are handled one at a time.
- Unhandled failures: in the source a throw from `message.reply` (bot.js:111) or from `writeFileSync` (bot.js:115) rejects the async handler with no catch, which by default ends the Node process. The model instead reports `SendFailed` or an unsaved `Replied` and keeps handling messages; `Outcomes`, `Policy.RecordedSenderNotRepliedAgain` and `Policy.OneReplyPerSenderPerDay` cover streams that continue past such a failure. The model also assumes the rewrite of an empty data file at startup (bot.js:23) succeeds, whereas a throw there stops the program before it starts.
- The sender id `__proto__`: the source stores entries in a plain object (bot.js:17). For this id the lookup at bot.js:33 finds the inherited prototype, the date comparison at bot.js:39 always allows a reply, and the assignment at bot.js:114 is ignored by the `__proto__` setter, so the source answers it on every message outside working hours. The model records it like any other id and declines its same-day repeats. Other inherited names (`constructor`, `toString`, ...) behave as in the model: the first lookup allows a reply and the assignment creates an own entry.
- Re-sending across a restart after a failed write, and duplicate replies from handlers that overlap at `await message.reply` (bot.js:111, before the record at line 114), are outside the once-per-day guarantee; the first is proved by `Policy.RestartAfterFailedSaveRepeats`, the second is excluded by handling messages one at a time.
- Failed saves: `writeFileSync` (bot.js:28) truncates the data file before writing, so a write that fails can leave it empty or half-written. The model assumes a failed save keeps the previous file contents (`persisted` unchanged). In the source a truncated file fails to parse at the next startup (bot.js:20), is reset to an empty object (bot.js:23), and every earlier reply is forgotten, not only the unsaved one; `Policy.RestartAfterSaveStillDeclines` holds only while the file was not truncated.
