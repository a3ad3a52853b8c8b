# time-bot: the hours-collection state machine

time-bot is a chat bot that collects each user's weekly hours. Users register with
`!gobot add` in a server channel. `!gobot dm` makes the bot open a private channel with
the person who typed it, remember that a reply is expected there, and ask for a number.
The reply is rounded to one decimal digit and confirmed to its author. It is meant to be
written into an `hours` table for every registered user, after which the pending entry
for that channel is deleted. As written, the roster query returns one column while the
loop scans two, so no hours are written and the entry stays (see "## Findings").

This project models that state machine in Dafny. The state has four parts:

- `responses`: a map from a private channel id to the pending `Answer`, holding the
  trigger channel and the value -1.
- The roster: the rows of `discord_user`, each a surrogate key and a chat user id.
- The `hours` table, kept as a sequence of rows so that "one row per key" has to be
  proved rather than assumed.
- An outbox of `(channel, text)` messages the bot sent.

Modules, one file each:

- `rounding.dfy` (`Rounding`): `round` and `toFixed` over exact reals. `round` adds a
  half with the sign of its argument and truncates toward zero.
- `text.dfy` (`Text`): the string operations the router uses and the command parser.
  These are `strings.Split`, `strings.Index`, `strings.Replace` with a count of 1,
  `strings.CutPrefix` and `strings.TrimSpace`.
- `store.dfy` (`Wrappers`, `Store`): the two tables and their lookups, which report
  no row, found or failure. Also the insert and update statements and the roster
  query's projection and scan.
- `workflow.dfy` (`Workflow`): each handler as a function from the old state to a
  `Step`, meaning the new state plus `Running` or `Halted(reason)`. It also holds the
  lemmas about those functions.
- `bot.dfy` (`Bot`): class `Bot`, whose fields are the state. Its methods update the
  fields in place. `DeliverAll` runs the loop over the roster rows as a `while` loop.
  Each method is proved to produce exactly the state and outcome the matching
  `Workflow` function gives.

The model treats three outside collaborators as parameters (`Workflow.Env`):

- the bot's own user id;
- the private channel the chat service opens for a user, as a total function;
- `strconv.ParseFloat`, as a partial function from text to a real.

Which store calls fail during one message is a parameter too (`StoreFaults`). Every
`log.Fatal`/`log.Panic` reached by a handler becomes `Halted(reason)`, and nothing
after it happens.

The roster query is a parameter of the reply handler, `Workflow.Reply`, and of the
message handler, `Workflow.MessageStep`. The `Bot` class takes it as a constructor
argument, `query`. `SelectUserId` is main.go:148 as written. `SelectKeyAndUserId` is the
query that the scan at main.go:161 expects. Lemmas about the code as written use the
first. `Workflow.ReplyRecordsEveryone` states what the corrected query achieves together
with a second correction: the hours lookup at main.go:177 must address the hours row by
the key (`WHERE hours.userID IN (?)`), as the model's `Store.LookupHours` does. As
written, that lookup compares the key with chat user ids; `Store.UpsertAsWritten`
models it.

Behaviours of main.go a reader might not expect, all modelled as written:

- `!gobot dm` prompts only its author, not every registered user.
- The reminder text is "Hey dont forget to input your hours here as a Float (10.0, 5.7):".
- A repeated `add` stops the process. No "already added" message is sent.
- An unparsable reply stops the process. There is no re-prompt.
- A private message is also parsed as a command after the reply handler has run.
- The confirmation echoes the raw reply, not the rounded value.
- The pending entry is deleted once per delivered roster row. With an empty roster it
  is never deleted.

## Model

| member | source | states |
|---|---|---|
| `Rounding.HalfWithSignOf` | main.go:222 | `math.Copysign(0.5, num)`: one half, negative exactly when `num` is negative |
| `Rounding.Round` | main.go:221-223 | `round`: add a half with the sign, then truncate; its meaning is stated by `Rounding.RoundIsHalfAwayFromZero` |
| `Rounding.Pow10` | main.go:226 | `math.Pow(10, precision)` for an integer exponent, exactly; it is positive, so `toFixed` never divides by zero |
| `Rounding.ToFixed` | main.go:225-228 | `toFixed`: scale by a power of ten, round, scale back; its meaning for one digit is stated by `Rounding.ToFixedOneDigit` |
| `Rounding.Trunc` | main.go:222 | `int(f)` truncates toward zero: the result is the integer next to `x` on the side of zero |
| `Rounding.RoundIsHalfAwayFromZero` | main.go:221-223 | `round(x)` lies within a half of `x`, breaks ties away from zero, and is the only integer that does both |
| `Rounding.RoundIsOdd` | main.go:221-223 | `round(-x) == -round(x)` |
| `Rounding.RoundIsNearest` | main.go:221-223 | `round(x)` differs from `x` by at most 1/2 |
| `Rounding.RoundOfInteger` | main.go:221-223 | an integer rounds to itself |
| `Rounding.RoundTies` | main.go:222 | `round(2.5) == 3`, `round(-2.5) == -3`, `round(0.5) == 1`, `round(-0.5) == -1` |
| `Rounding.ToFixedOneDigit` | main.go:225-228 | `toFixed(x, 1)` is `round(10x)/10`: a whole number of tenths within 1/20 of `x`, ties away from zero |
| `Rounding.ToFixedOfTenths` | main.go:225-228 | a whole number of tenths is left unchanged by `toFixed(_, 1)` |
| `Rounding.ToFixedIdempotent` | main.go:225-228 | `toFixed(toFixed(x, 1), 1) == toFixed(x, 1)` |
| `Rounding.ToFixedExamples` | main.go:136 | 2.25 → 2.3, -2.25 → -2.3, 2.249 → 2.2, 7.25 → 7.3 |
| `Text.Split` | main.go:66 | `strings.Split` always yields at least one piece |
| `Text.SplitJoin` | main.go:66 | joining the pieces of a split gives the string back, and no piece contains the separator |
| `Text.JoinSplit` | main.go:66 | splitting a join of separator-free pieces gives the pieces back |
| `Text.SplitOfSeparatorFree` | main.go:66 | a string without the separator splits into itself alone |
| `Text.SplitAfterPiece` | main.go:66 | splitting `w + sep + t` yields `w` followed by the pieces of `t` |
| `Text.SplitHead` | main.go:66-67 | the first piece is the longest separator-free prefix of the string |
| `Text.FirstPieceOf` | main.go:66-67 | the first piece of `w + tail` is `w` when `tail` is empty or starts with the separator |
| `Text.Index` | main.go:71 | `strings.Index` returns the first position of the pattern, or -1 exactly when it does not occur |
| `Text.ReplaceFirst` | main.go:71 | with no occurrence of the pattern the string is unchanged |
| `Text.ReplaceFirstUndo` | main.go:71 | when the pattern occurs, `rep` stands where its first occurrence was, and putting the pattern back there restores the original string |
| `Text.CutPrefix` | main.go:72 | removes the prefix when present, otherwise returns the string unchanged |
| `Text.IsSpace` | main.go:130 | the white-space test inside `strings.TrimSpace`: space, tab, newline, carriage return, vertical tab and form feed |
| `Text.LeadingSpaces` | main.go:130 | counts exactly the white space the text starts with |
| `Text.TrailingStart` | main.go:130 | finds exactly where the trailing white space begins |
| `Text.TrimSpace` | main.go:130 | the trimmed reply is the slice left after cutting leading and trailing white space, and it neither starts nor ends with white space |
| `Text.IsCommand` | main.go:66-69 | the first space-separated token is `!gobot`; characterised by `Text.IsCommandIff` |
| `Text.CommandWord` | main.go:71-75 | the first token after `!gobot` and one space; characterised by `Text.CommandWordOf` and `Text.CommandWordAfterPrefix` |
| `Text.Route` | main.go:66-80 | the command a message names: `dm`, `add`, or none; characterised by `Text.RouteByWord` |
| `Text.IsCommandIff` | main.go:66-69 | a message is a command exactly when it is `!gobot` or starts with `!gobot ` |
| `Text.FirstWordIff` | main.go:75 | the first token is the word `w` exactly when the text is `w` or starts with `w ` |
| `Text.CommandWordAfterPrefix` | main.go:71-75 | after `!gobot `, the command word is the next token; `!gobot` alone gives the empty word |
| `Text.CommandWordOf` | main.go:71-75 | `!gobot <w><tail>` is a command whose word is `w` |
| `Text.CommandIs` | main.go:66-75 | `w` is the command word exactly when the message is `!gobot w` or starts with `!gobot w ` |
| `Text.RouteByWord` | main.go:75-80 | `dm` routes to the prompt and `add` to registration, both directions of the iff |
| `Text.NotACommand` | main.go:66-69 | content whose first token is not exactly `!gobot` triggers no command |
| `Text.EmptyCommandWord` | main.go:71-80 | `!gobot` alone, or followed by two spaces, has the empty command word and does nothing |
| `Store.LookupUser` | main.go:106-111 | the roster lookup reports a failure when the statement fails, otherwise found exactly when the user id is on the roster |
| `Store.InsertUser` | main.go:113-114 | the insert appends the user with the next surrogate key and advances that key; its effect is stated by `Store.InsertUserValid` |
| `Store.InsertUserValid` | main.go:111-117 | inserting a user the lookup did not find keeps ids and keys unique, appends one row and registers the user |
| `Store.Project` | main.go:148 | the columns the roster query returns for one user: the chat id alone as written, the key and the chat id as the scan at :161 expects |
| `Store.RosterRows` | main.go:148-149 | the roster query yields one row per user, in order, with the projected columns |
| `Store.ScanKey` | main.go:161 | a two-target scan succeeds only on a two-column row and then yields its key |
| `Store.LookupHours` | main.go:177-181 | the hours lookup reports a failure when the statement fails, otherwise found exactly when the key has a row |
| `Store.HoursOf` | main.go:177-181 | a key has a recorded value exactly when it has a row |
| `Store.SetHours` | main.go:191-192 | the update keeps the row count and every row's key |
| `Store.SetHoursCount` | main.go:191-192 | the update does not change how many rows any key has |
| `Store.SetHoursValue` | main.go:191-192 | after the update, the key reads the new value if it had a row, and every other key reads as before |
| `Store.InsertHours` | main.go:184-185 | the insert appends one row for the key with the value; its effect is stated by `Store.InsertHoursEffect` |
| `Store.InsertHoursEffect` | main.go:184-185 | the insert adds one row for its key, and that row holds the key's value |
| `Store.Upsert` | main.go:181-195 | the write of one reply: update when the key has a row, insert when it has none; its effect is stated by `Store.UpsertOneRow` |
| `Store.UpsertOneRow` | main.go:181-195 | insert or update: afterwards the key has exactly one row with the value, other keys are unchanged, and no key has two rows |
| `Store.LookupHoursAsWritten` | main.go:177-181 | the hours lookup as written matches its parameter against chat user ids; it reports no row whenever no chat user id equals that parameter |
| `Store.UpsertAsWritten` | main.go:177-195 | the write of one reply as written: the lookup uses the parameter as a chat user id, while the insert and the update use it as the key |
| `Store.UpsertAsWrittenDuplicates` | main.go:177-192 | when the key's text is no chat user id, each write as written inserts: two replies leave two more rows for the key, and keys are no longer unique |
| `Store.UpsertTwice` | main.go:181-195 | recording `v1` and then `v2` leaves one row, holding `v2` |
| `Workflow.PromptStep` | main.go:203-219 | `UserPropmtHandler` as a state transition; its effect is stated by `Workflow.PromptEffect` |
| `Workflow.RegisterStep` | main.go:102-121 | `UserAddHandler` as a state transition with its fatal paths as halts; its effect is stated by `Workflow.RegisterEffect` |
| `Workflow.DeliverStep` | main.go:174-201 | `UserDMHandler` for one key as a state transition; its effect is stated by `Workflow.DeliverStepValid` and `Workflow.DeliverStepRecords` |
| `Workflow.DeliverRows` | main.go:158-169 | the loop over the roster rows, one row after another, stopping at the first halt; its effect is stated by `Workflow.DeliverRowsRecords` |
| `Workflow.Reply` | main.go:123-172 | `UserGetHoursHandler` with the roster query as a parameter; its effects are stated by the `Reply…` lemmas below |
| `Workflow.MessageStep` | main.go:51-85 | the message handler with the roster query as a parameter; its effects are stated by the routing lemmas below |
| `Workflow.RecordingText` | main.go:143 | the confirmation text: "Recording ", the raw reply, then " hours for the week" |
| `Workflow.PromptEffect` | main.go:203-219 | an idle private channel gets `(trigger, -1)` and the prompt; a pending one keeps its entry and gets the reminder; nothing else changes |
| `Workflow.PromptTwice` | main.go:210-218 | two prompts leave one entry, for the first trigger, and send the prompt and then the reminder |
| `Workflow.RegisterEffect` | main.go:102-121 | the user is inserted exactly when the lookup finds no row and the insert succeeds; every other outcome halts with the state unchanged; the roster stays duplicate-free |
| `Workflow.RegisterTwice` | main.go:110-120 | after a successful `add`, a second `add` by the same user stops and leaves the state unchanged whatever the store does, and with a working lookup it stops as already registered |
| `Workflow.DeliverStepValid` | main.go:174-201 | one delivery upserts the key and deletes the channel's pending entry, or halts with nothing changed; invariants kept |
| `Workflow.DeliverToIdleChannel` | main.go:200 | deleting an entry that is already absent leaves the map unchanged |
| `Workflow.DeliverRowsValid` | main.go:158-169 | the roster loop keeps the invariants and touches neither roster nor outbox |
| `Workflow.DeliverRowsStopped` | main.go:158-169 | once a row halts the process, later rows change nothing |
| `Workflow.ScansSnoc` | main.go:158-166 | which rows scan, and to which keys, splits over the last row |
| `Workflow.DeliverStepRecords` | main.go:174-201 | with a working store, one delivery leaves the key's only row holding the value, keeps other keys, and removes the channel's pending entry |
| `Workflow.DeliverRowsRecords` | main.go:158-169 | with a working store the loop records the value for every scanned key, keeps other keys, and removes the pending entry if any row was delivered |
| `Workflow.KeyedRowsScan` | main.go:158-166 | rows projected with the key scan to exactly the roster's keys |
| `Workflow.UserIdRowsNeverScan` | main.go:148-161 | no row of the one-column roster query survives the two-target scan |
| `Workflow.DeliverRowsSkipsUnscannable` | main.go:158-167 | a loop in which no row scans changes nothing |
| `Workflow.IdleReplyIgnored` | main.go:124-127 | a private message on a channel with no pending entry changes no state and sends nothing |
| `Workflow.UnparsableReplyHalts` | main.go:130-133 | a reply that does not parse halts before anything is written or sent |
| `Workflow.ReplyValid` | main.go:123-172 | a reply keeps the store invariants and the roster on every path |
| `Workflow.ReplyRecordsEveryone` | main.go:123-201 | a parsed pending reply with a working store: confirmation sent, every roster key holds one row with the rounded value, other keys unchanged, only this channel's entry removed |
| `Workflow.ReplyWithEmptyRosterStaysPending` | main.go:158-200 | with an empty roster, nothing is recorded and the channel stays pending, whichever query is used |
| `Workflow.ReplyAsWrittenRecordsNothing` | main.go:148-166 | with the query as written, the reply is confirmed, but nothing is recorded and the channel stays pending |
| `Workflow.OwnMessageIgnored` | main.go:52-54 | a message from the bot's own user changes no state and sends nothing |
| `Workflow.GuildMessageRouting` | main.go:64-80 | a server message `!gobot dm …` prompts its author and `!gobot add …` registers them; any other content changes nothing and sends nothing |
| `Workflow.PrivateMessageFallsThrough` | main.go:58-80 | a private message goes to the reply handler first; a halt there ends it; otherwise `!gobot dm …` prompts and `!gobot add …` registers against the state the reply left, and any other content leaves that state |
| `Workflow.PrivateReplyAsWritten` | main.go:58-166 | as written, a pending private reply that parses and is no command is confirmed, but the hours table and the pending map stay as they were |
| `Workflow.MessageStepValid` | main.go:51-85 | every message keeps the store invariants, with either roster query |
| `Bot.Bot.constructor` | main.go:24 | the bot starts with no pending replies, an empty roster, no hours and no messages, and keeps the roster query it is given |
| `Bot.Bot.Prompt` | main.go:203-219 | updates the fields to exactly `PromptStep` of the old state |
| `Bot.Bot.Register` | main.go:102-121 | updates the fields and returns the outcome of `RegisterStep` |
| `Bot.Bot.Deliver` | main.go:174-201 | updates the fields and returns the outcome of `DeliverStep` |
| `Bot.Bot.DeliverAll` | main.go:155-169 | the `while` loop over the roster rows does exactly what `DeliverRows` describes |
| `Bot.Bot.ReceiveReply` | main.go:123-172 | updates the fields and returns the outcome of `Reply` with the bot's roster query; setting the local copy's `Hours` leaves the map alone |
| `Bot.Bot.OnMessage` | main.go:51-85 | updates the fields and returns the outcome of `MessageStep` with the bot's roster query, keeping the invariants |

## Left out

- Session setup, intents, `Open`, environment variables, signal handling and the
  `main` function (main.go:28-100) are process bootstrapping. They are not modelled.
- The failure of `UserChannelCreate` (main.go:139-142, 205-208) is not modelled. The
  private channel is a total function of the user.
- The network sends are not modelled. Each `ChannelMessageSend` becomes an entry
  appended to the outbox.
- Process termination is not modelled. A halt is reported as `Halted(reason)`, and
  the `Bot` object still accepts calls afterwards. The `fmt.Println` log line at
  main.go:171 is left out.
- The goroutines, the `sync.WaitGroup` and the unsynchronised concurrent `delete`
  (main.go:155-169, 200) are left out. The roster loop runs one row after another, in
  roster order.
- The SQL text, the driver and the cursors are not modelled. The hours lookup at
  main.go:177 compares `discord_user.userID` with the scanned key. The insert and the
  update use that key as `hours.userID`. `Workflow.DeliverStep` uses the corrected,
  key-addressed lookup `Store.LookupHours`, so all three address the same key. With a
  working scan, the code as written would insert a new row on every reply and never
  reach the update. `Store.UpsertAsWrittenDuplicates` proves this for one key, but
  the handlers are not composed with that lookup.
- The `SELECT *` lookup at main.go:106-110 scans one target. Whether an existing
  user's row scans or errors does not matter, because both outcomes reach `log.Fatal`.
- `Rounding.Round` is computed over exact reals. It does not model the 32-bit
  precision of `ParseFloat(…, 32)`, float64 rounding in `math.Pow` and in the
  multiply and divide, NaN, infinities, or overflow of the `int` conversion.
- `Text.IsSpace` covers only ASCII white space. `strings.TrimSpace` also trims
  Unicode spaces.
- `Text.Split` handles only the one-character separators the router uses.
- `Text.CutPrefix` drops the boolean that `strings.CutPrefix` returns. The router
  ignores it.

## Findings

| source | as written | input that shows it | evidently intended | confidence | as-written member | corrected member |
|---|---|---|---|---|---|---|
| main.go:148-166 | The roster query selects one column (`SELECT userID`). The loop scans each row into two targets (`Scan(&primaryKey, &userID)`). `database/sql` rejects a scan whose target count differs from the column count, so `case nil` never runs. | Any non-empty roster, with a pending channel that replies `7.25`: the bot sends "Recording 7.25 hours for the week", writes no hours row, and the channel stays pending. | Query both the key and the user id, so that every roster row is scanned and handed to `UserDMHandler`. Its hours are upserted only if the lookup at main.go:177 also addresses the key (next row). | high; not executed | `Workflow.ReplyAsWrittenRecordsNothing` | `Workflow.ReplyRecordsEveryone` |
| main.go:177-192 | The hours lookup compares its parameter, the scanned key, with `discord_user.userID`, a chat user id. The insert at :184 and the update at :191 use that key as `hours.userID`. Chat user ids are long numeric ids that no small key's text equals, so the lookup reports `sql.ErrNoRows` every time. | Any roster whose chat ids differ from the keys' text, e.g. `[Registered(0, "123456789012345678")]` with key text `"0"`: two replies leave two `hours` rows for key 0, and the update branch is never taken. | Look the row up by the key, `WHERE hours.userID IN (?)`, so that the second reply updates the first row. | high; not executed | `Store.UpsertAsWrittenDuplicates` | `Store.UpsertOneRow` |
