/**
 * The bot's handlers as a state machine over values: the pending-reply map
 * (`responses`), the roster, the hours table and the messages sent. Each
 * handler is a function from the old state to a `Step`: the new state and
 * whether the process goes on or stops at one of its `log.Fatal`/`log.Panic`
 * calls. The `Bot` class runs the same handlers in place and is proved
 * against these functions.
 */
module Workflow {
  import opened Wrappers
  import opened Rounding
  import opened Text
  import opened Store

  type ChannelId = string

  /** A pending reply: the channel the prompt was triggered from, and an hours value
      (`-1` until a reply; the handlers never write it back). */
  datatype Answer = Answer(origChannel: ChannelId, hours: real)

  /** A message the bot sent. */
  datatype Sent = Sent(channel: ChannelId, text: string)

  /** An incoming message; `guild` is empty for a private channel. */
  datatype Message = Message(author: UserId, channel: ChannelId, guild: string, content: string)

  /** What lies outside the model: the bot's own user id, the private channel the chat
      service opens for a user, and the number parser (`strconv.ParseFloat`). */
  datatype Env = Env(self: UserId, dmChannel: UserId -> ChannelId, parse: string -> Option<real>)

  /** Why the process stops. */
  datatype Halt =
    | BadNumber          // the reply is not a number
    | RosterUnavailable  // the roster query failed
    | StoreFailed        // a lookup, insert or update failed
    | AlreadyRegistered  // `add` from a user who is on the roster

  datatype Outcome = Running | Halted(why: Halt)

  /** Which store calls fail while one message is handled. */
  datatype StoreFaults = StoreFaults(
    userLookup: bool,
    userInsert: bool,
    rosterQuery: bool,
    hoursLookup: set<nat>,
    hoursWrite: set<nat>)

  const NoFaults := StoreFaults(false, false, false, {}, {})

  datatype State = State(
    responses: map<ChannelId, Answer>,
    roster: seq<Registered>,
    nextKey: nat,
    hours: seq<HoursRow>,
    outbox: seq<Sent>)

  datatype Step = Step(state: State, outcome: Outcome)

  const PromptText: string := "Input your hours for the week as a Float (10.0, 5.7):"
  const ReminderText: string := "Hey dont forget to input your hours here as a Float (10.0, 5.7):"

  function RecordingText(content: string): string
  {
    "Recording " + content + " hours for the week"
  }

  const Initial := State(map[], [], 0, [], [])

  /** The store invariants: no user twice on the roster, at most one hours row per key. */
  ghost predicate Valid(st: State)
  {
    RosterValid(st.roster, st.nextKey) && UniqueKeys(st.hours)
  }

  // ---------------------------------------------------------------- prompt

  /** `UserPropmtHandler`: mark the author's private channel pending and prompt there,
      or, when it is already pending, remind. */
  function PromptStep(env: Env, st: State, author: UserId, trigger: ChannelId): State
  {
    var ch := env.dmChannel(author);
    if ch !in st.responses then
      st.(responses := st.responses[ch := Answer(trigger, -1.0)],
          outbox := st.outbox + [Sent(ch, PromptText)])
    else
      st.(outbox := st.outbox + [Sent(ch, ReminderText)])
  }

  /** A channel without a pending entry gets one pointing at the trigger channel and the
      prompt; a pending one keeps its entry and gets the reminder; nothing else changes. */
  lemma PromptEffect(env: Env, st: State, author: UserId, trigger: ChannelId)
    ensures var ch := env.dmChannel(author);
      var st' := PromptStep(env, st, author, trigger);
      && st'.roster == st.roster && st'.nextKey == st.nextKey && st'.hours == st.hours
      && ch in st'.responses
      && st'.responses.Keys == st.responses.Keys + {ch}
      && (forall c :: c in st.responses && c != ch ==> st'.responses[c] == st.responses[c])
      && (ch !in st.responses ==>
            st'.responses[ch] == Answer(trigger, -1.0) && st'.outbox == st.outbox + [Sent(ch, PromptText)])
      && (ch in st.responses ==>
            st'.responses == st.responses && st'.outbox == st.outbox + [Sent(ch, ReminderText)])
  {
  }

  /** Prompting the same user twice leaves one entry for the channel, pointing at the first
      trigger, and sends the prompt and then the reminder. */
  lemma PromptTwice(env: Env, st: State, author: UserId, t1: ChannelId, t2: ChannelId)
    requires env.dmChannel(author) !in st.responses
    ensures var ch := env.dmChannel(author);
      var st2 := PromptStep(env, PromptStep(env, st, author, t1), author, t2);
      && st2.responses == st.responses[ch := Answer(t1, -1.0)]
      && st2.outbox == st.outbox + [Sent(ch, PromptText), Sent(ch, ReminderText)]
  {
  }

  // ---------------------------------------------------------------- registration

  /** `UserAddHandler`: insert the author only when the lookup reports no row; every other
      outcome, including "already registered", stops the process. */
  function RegisterStep(st: State, author: UserId, faults: StoreFaults): Step
  {
    match LookupUser(st.roster, author, faults.userLookup)
    case NoRow =>
      if faults.userInsert then Step(st, Halted(StoreFailed))
      else
        var (roster', nextKey') := InsertUser(st.roster, st.nextKey, author);
        Step(st.(roster := roster', nextKey := nextKey'), Running)
    case Found => Step(st, Halted(AlreadyRegistered))
    case Failure => Step(st, Halted(StoreFailed))
  }

  /** Registration adds the author exactly when they are not on the roster and the store
      works; otherwise the state is unchanged and the process stops. The roster stays free
      of duplicates either way. */
  lemma RegisterEffect(st: State, author: UserId, faults: StoreFaults)
    requires Valid(st)
    ensures var r := RegisterStep(st, author, faults);
      && Valid(r.state)
      && r.state.responses == st.responses && r.state.hours == st.hours && r.state.outbox == st.outbox
      && (r.outcome == Running <==> !faults.userLookup && !faults.userInsert && !IsRegistered(st.roster, author))
      && (r.outcome == Running ==>
            r.state.roster == st.roster + [Registered(st.nextKey, author)] && r.state.nextKey == st.nextKey + 1)
      && (r.outcome != Running ==> r.state == st)
      && (!faults.userLookup && IsRegistered(st.roster, author) ==> r.outcome == Halted(AlreadyRegistered))
  {
    if !faults.userLookup && !IsRegistered(st.roster, author) && !faults.userInsert {
      InsertUserValid(st.roster, st.nextKey, author);
    }
  }

  /** A second `add` by the same user never inserts them again, whatever the store does;
      with a working lookup it stops with `AlreadyRegistered`. */
  lemma RegisterTwice(st: State, author: UserId, f1: StoreFaults, f2: StoreFaults)
    requires Valid(st)
    ensures var r1 := RegisterStep(st, author, f1);
      var r2 := RegisterStep(r1.state, author, f2);
      r1.outcome == Running ==> r2.outcome != Running && r2.state == r1.state
    ensures var r1 := RegisterStep(st, author, f1);
      var r2 := RegisterStep(r1.state, author, f2);
      r1.outcome == Running && !f2.userLookup ==> r2.outcome == Halted(AlreadyRegistered)
  {
    var r1 := RegisterStep(st, author, f1);
    if r1.outcome == Running {
      InsertUserValid(st.roster, st.nextKey, author);
    }
  }

  // ---------------------------------------------------------------- reply collection

  /** `UserDMHandler` for one roster key: look up the key's hours row, insert or update it,
      then delete the replying channel's pending entry. */
  function DeliverStep(st: State, key: nat, value: real, channel: ChannelId, faults: StoreFaults): Step
  {
    match LookupHours(st.hours, key, key in faults.hoursLookup)
    case Failure => Step(st, Halted(StoreFailed))
    case NoRow =>
      if key in faults.hoursWrite then Step(st, Halted(StoreFailed))
      else Step(st.(hours := InsertHours(st.hours, key, value), responses := st.responses - {channel}), Running)
    case Found =>
      if key in faults.hoursWrite then Step(st, Halted(StoreFailed))
      else Step(st.(hours := SetHours(st.hours, key, value), responses := st.responses - {channel}), Running)
  }

  /** The roster loop: each row whose scan succeeds is handed to `DeliverStep`, in order,
      until one of them stops the process. */
  function DeliverRows(st: State, rows: seq<Row>, value: real, channel: ChannelId, faults: StoreFaults): Step
  {
    if rows == [] then Step(st, Running)
    else
      var before := DeliverRows(st, rows[..|rows| - 1], value, channel, faults);
      if before.outcome != Running then before
      else
        match ScanKey(rows[|rows| - 1])
        case None => before
        case Some(key) => DeliverStep(before.state, key, value, channel, faults)
  }

  /** `UserGetHoursHandler`, with the roster query projected as `q`: ignore a channel with
      no pending entry; otherwise parse the trimmed reply, round it to tenths, confirm with
      the raw text, query the roster and deliver the value for every row. `SelectUserId` is
      the query as written; `SelectKeyAndUserId` is the one the two-target scan expects. */
  function Reply(env: Env, st: State, m: Message, faults: StoreFaults, q: RosterQuery): Step
  {
    if m.channel !in st.responses then Step(st, Running)
    else
      match env.parse(TrimSpace(m.content))
      case None => Step(st, Halted(BadNumber))
      case Some(x) =>
        var value := ToFixed(x, 1);
        var st1 := st.(outbox := st.outbox + [Sent(env.dmChannel(m.author), RecordingText(m.content))]);
        if faults.rosterQuery then Step(st1, Halted(RosterUnavailable))
        else DeliverRows(st1, RosterRows(q, st.roster), value, m.channel, faults)
  }

  /** Delivery writes only the hours table and the pending map; it keeps the invariants. */
  lemma DeliverStepValid(st: State, key: nat, value: real, channel: ChannelId, faults: StoreFaults)
    requires Valid(st)
    ensures var r := DeliverStep(st, key, value, channel, faults);
      && Valid(r.state)
      && r.state.roster == st.roster && r.state.nextKey == st.nextKey && r.state.outbox == st.outbox
      && (r.outcome == Running <==> key !in faults.hoursLookup && key !in faults.hoursWrite)
      && (r.outcome == Running ==>
            r.state.hours == Upsert(st.hours, key, value) && r.state.responses == st.responses - {channel})
      && (r.outcome != Running ==> r.state == st)
  {
    if key !in faults.hoursLookup && key !in faults.hoursWrite {
      var r := DeliverStep(st, key, value, channel, faults);
      UpsertOneRow(st.hours, key, value);
      assert r.state == st.(hours := Upsert(st.hours, key, value), responses := st.responses - {channel});
    }
  }

  /** Deleting a pending entry that is already gone changes nothing in the map. */
  lemma DeliverToIdleChannel(st: State, key: nat, value: real, channel: ChannelId, faults: StoreFaults)
    requires channel !in st.responses
    ensures DeliverStep(st, key, value, channel, faults).state.responses == st.responses
  {
  }

  /** The roster loop keeps the invariants and touches neither roster nor outbox. */
  lemma {:induction false} DeliverRowsValid(st: State, rows: seq<Row>, value: real, channel: ChannelId, faults: StoreFaults)
    requires Valid(st)
    ensures var r := DeliverRows(st, rows, value, channel, faults);
      && Valid(r.state)
      && r.state.roster == st.roster && r.state.nextKey == st.nextKey && r.state.outbox == st.outbox
      && (r.outcome == Running || r.outcome == Halted(StoreFailed))
  {
    if rows != [] {
      var init := rows[..|rows| - 1];
      DeliverRowsValid(st, init, value, channel, faults);
      var before := DeliverRows(st, init, value, channel, faults);
      if before.outcome == Running && ScanKey(rows[|rows| - 1]).Some? {
        DeliverStepValid(before.state, ScanKey(rows[|rows| - 1]).value, value, channel, faults);
      }
    }
  }

  /** Once a prefix of the rows has stopped the process, the remaining rows change nothing. */
  lemma {:induction false} DeliverRowsStopped(st: State, rows: seq<Row>, n: nat, value: real, channel: ChannelId, faults: StoreFaults)
    requires n <= |rows|
    requires DeliverRows(st, rows[..n], value, channel, faults).outcome != Running
    ensures DeliverRows(st, rows, value, channel, faults) == DeliverRows(st, rows[..n], value, channel, faults)
  {
    if n < |rows| {
      var init := rows[..|rows| - 1];
      assert init[..n] == rows[..n];
      DeliverRowsStopped(st, init, n, value, channel, faults);
    } else {
      assert rows[..n] == rows;
    }
  }

  /** Some row of `rows` scans to key `k`. */
  ghost predicate ScansTo(rows: seq<Row>, k: nat)
  {
    exists i :: 0 <= i < |rows| && ScanKey(rows[i]) == Some(k)
  }

  /** Some row of `rows` scans at all. */
  ghost predicate AnyScans(rows: seq<Row>)
  {
    exists i :: 0 <= i < |rows| && ScanKey(rows[i]).Some?
  }

  /** Both predicates split over the last row. */
  lemma ScansSnoc(rows: seq<Row>)
    requires rows != []
    ensures var init, last := rows[..|rows| - 1], rows[|rows| - 1];
      && (forall k: nat :: ScansTo(rows, k) <==> ScansTo(init, k) || ScanKey(last) == Some(k))
      && (AnyScans(rows) <==> AnyScans(init) || ScanKey(last).Some?)
  {
    var init, last := rows[..|rows| - 1], rows[|rows| - 1];
    forall k: nat ensures ScansTo(rows, k) <==> ScansTo(init, k) || ScanKey(last) == Some(k) {
      if ScansTo(rows, k) {
        var i :| 0 <= i < |rows| && ScanKey(rows[i]) == Some(k);
        if i < |init| { assert init[i] == rows[i]; }
      }
      if ScansTo(init, k) {
        var i :| 0 <= i < |init| && ScanKey(init[i]) == Some(k);
        assert rows[i] == init[i];
      }
    }
    if AnyScans(rows) {
      var i :| 0 <= i < |rows| && ScanKey(rows[i]).Some?;
      if i < |init| { assert init[i] == rows[i]; }
    }
    if AnyScans(init) {
      var i :| 0 <= i < |init| && ScanKey(init[i]).Some?;
      assert rows[i] == init[i];
    }
  }

  /** With a working store, one delivery records `value` as the key's only row, leaves
      every other key as it was, and removes the channel's pending entry. */
  lemma DeliverStepRecords(st: State, key: nat, value: real, channel: ChannelId)
    requires UniqueKeys(st.hours)
    ensures var r := DeliverStep(st, key, value, channel, NoFaults);
      && r.outcome == Running
      && r.state.responses == st.responses - {channel}
      && UniqueKeys(r.state.hours)
      && HoursOf(r.state.hours, key) == Some(value) && Count(r.state.hours, key) == 1
      && (forall j :: j != key ==> HoursOf(r.state.hours, j) == HoursOf(st.hours, j))
  {
    UpsertOneRow(st.hours, key, value);
    var r := DeliverStep(st, key, value, channel, NoFaults);
    assert r.state.hours == Upsert(st.hours, key, value);
  }

  /** With a working store, the loop records `value` for every key its rows scan to, leaves
      every other key as it was, and removes the pending entry once any row was delivered. */
  lemma {:induction false} DeliverRowsRecords(st: State, rows: seq<Row>, value: real, channel: ChannelId)
    requires UniqueKeys(st.hours)
    ensures var r := DeliverRows(st, rows, value, channel, NoFaults);
      && r.outcome == Running
      && UniqueKeys(r.state.hours)
      && (forall k: nat :: ScansTo(rows, k) ==> HoursOf(r.state.hours, k) == Some(value) && Count(r.state.hours, k) == 1)
      && (forall k: nat :: !ScansTo(rows, k) ==> HoursOf(r.state.hours, k) == HoursOf(st.hours, k))
      && r.state.responses == if AnyScans(rows) then st.responses - {channel} else st.responses
  {
    if rows != [] {
      var init := rows[..|rows| - 1];
      var last := rows[|rows| - 1];
      DeliverRowsRecords(st, init, value, channel);
      ScansSnoc(rows);
      var before := DeliverRows(st, init, value, channel, NoFaults);
      var r := DeliverRows(st, rows, value, channel, NoFaults);
      if ScanKey(last).Some? {
        var key := ScanKey(last).value;
        DeliverStepRecords(before.state, key, value, channel);
        assert r == DeliverStep(before.state, key, value, channel, NoFaults);
        forall k: nat | ScansTo(rows, k)
          ensures HoursOf(r.state.hours, k) == Some(value) && Count(r.state.hours, k) == 1
        {
          if k != key {
            assert ScansTo(init, k);
            assert Count(r.state.hours, k) <= 1;
          }
        }
      } else {
        assert r == before;
      }
    }
  }

  /** Every roster row, projected with the key, scans to that row's key. */
  lemma KeyedRowsScan(roster: seq<Registered>, k: nat)
    ensures ScansTo(RosterRows(SelectKeyAndUserId, roster), k) <==>
      exists i :: 0 <= i < |roster| && roster[i].key == k
    ensures roster != [] ==> AnyScans(RosterRows(SelectKeyAndUserId, roster))
  {
    var rows := RosterRows(SelectKeyAndUserId, roster);
    assert forall i :: 0 <= i < |roster| ==> ScanKey(rows[i]) == Some(roster[i].key);
    if ScansTo(rows, k) {
      var i :| 0 <= i < |rows| && ScanKey(rows[i]) == Some(k);
      assert roster[i].key == k;
    }
    if exists i :: 0 <= i < |roster| && roster[i].key == k {
      var i :| 0 <= i < |roster| && roster[i].key == k;
      assert ScanKey(rows[i]) == Some(k);
    }
    if roster != [] {
      assert ScanKey(rows[0]).Some?;
    }
  }

  /** No row of the one-column roster query survives the two-target scan. */
  lemma UserIdRowsNeverScan(roster: seq<Registered>)
    ensures forall i :: 0 <= i < |roster| ==> ScanKey(RosterRows(SelectUserId, roster)[i]) == None
  {
  }

  /** A private message on a channel with no pending entry changes nothing. */
  lemma IdleReplyIgnored(env: Env, st: State, m: Message, faults: StoreFaults, q: RosterQuery)
    requires m.channel !in st.responses
    ensures Reply(env, st, m, faults, q) == Step(st, Running)
  {
  }

  /** A reply that does not parse stops the process before anything is written or sent. */
  lemma UnparsableReplyHalts(env: Env, st: State, m: Message, faults: StoreFaults, q: RosterQuery)
    requires m.channel in st.responses
    requires env.parse(TrimSpace(m.content)) == None
    ensures Reply(env, st, m, faults, q) == Step(st, Halted(BadNumber))
  {
  }

  /** A reply keeps the store invariants, and leaves the roster alone, on every path. */
  lemma ReplyValid(env: Env, st: State, m: Message, faults: StoreFaults, q: RosterQuery)
    requires Valid(st)
    ensures Valid(Reply(env, st, m, faults, q).state)
    ensures Reply(env, st, m, faults, q).state.roster == st.roster
  {
    if m.channel in st.responses {
      match env.parse(TrimSpace(m.content))
      case None =>
      case Some(x) =>
        var st1 := st.(outbox := st.outbox + [Sent(env.dmChannel(m.author), RecordingText(m.content))]);
        DeliverRowsValid(st1, RosterRows(q, st.roster), ToFixed(x, 1), m.channel, faults);
    }
  }

  /** A pending reply that parses to `x`, with a working store and a non-empty roster:
      the confirmation goes to the author's private channel, every roster key then holds
      exactly one row with `x` rounded to tenths, other keys keep their rows, and the
      channel is no longer pending while every other pending entry stays. */
  lemma ReplyRecordsEveryone(env: Env, st: State, m: Message, x: real)
    requires Valid(st)
    requires m.channel in st.responses
    requires env.parse(TrimSpace(m.content)) == Some(x)
    requires st.roster != []
    ensures var r := Reply(env, st, m, NoFaults, SelectKeyAndUserId);
      && r.outcome == Running
      && Valid(r.state)
      && r.state.roster == st.roster
      && r.state.outbox == st.outbox + [Sent(env.dmChannel(m.author), RecordingText(m.content))]
      && (forall i :: 0 <= i < |st.roster| ==>
            HoursOf(r.state.hours, st.roster[i].key) == Some(ToFixed(x, 1))
            && Count(r.state.hours, st.roster[i].key) == 1)
      && (forall k :: (forall i :: 0 <= i < |st.roster| ==> st.roster[i].key != k) ==>
            HoursOf(r.state.hours, k) == HoursOf(st.hours, k))
      && r.state.responses == st.responses - {m.channel}
  {
    var st1 := st.(outbox := st.outbox + [Sent(env.dmChannel(m.author), RecordingText(m.content))]);
    var rows := RosterRows(SelectKeyAndUserId, st.roster);
    DeliverRowsRecords(st1, rows, ToFixed(x, 1), m.channel);
    DeliverRowsValid(st1, rows, ToFixed(x, 1), m.channel, NoFaults);
    forall k ensures ScansTo(rows, k) <==> exists i :: 0 <= i < |st.roster| && st.roster[i].key == k {
      KeyedRowsScan(st.roster, k);
    }
    KeyedRowsScan(st.roster, 0);
    forall i | 0 <= i < |st.roster| ensures ScansTo(rows, st.roster[i].key) {
      KeyedRowsScan(st.roster, st.roster[i].key);
    }
  }

  /** With an empty roster the loop has no row to deliver, so the pending entry is never
      deleted and the hours table is untouched. */
  lemma ReplyWithEmptyRosterStaysPending(env: Env, st: State, m: Message, x: real, q: RosterQuery)
    requires m.channel in st.responses
    requires env.parse(TrimSpace(m.content)) == Some(x)
    requires st.roster == []
    ensures var r := Reply(env, st, m, NoFaults, q);
      r.outcome == Running && r.state.responses == st.responses && r.state.hours == st.hours
  {
  }

  /** As written, the roster query returns one column while the loop scans two, so no row
      is ever delivered: the reply is confirmed, but nothing is recorded and the channel
      stays pending. */
  lemma ReplyAsWrittenRecordsNothing(env: Env, st: State, m: Message, x: real)
    requires m.channel in st.responses
    requires env.parse(TrimSpace(m.content)) == Some(x)
    ensures var r := Reply(env, st, m, NoFaults, SelectUserId);
      && r.outcome == Running
      && r.state.hours == st.hours
      && r.state.responses == st.responses
      && r.state.outbox == st.outbox + [Sent(env.dmChannel(m.author), RecordingText(m.content))]
  {
    var st1 := st.(outbox := st.outbox + [Sent(env.dmChannel(m.author), RecordingText(m.content))]);
    UserIdRowsNeverScan(st.roster);
    DeliverRowsSkipsUnscannable(st1, RosterRows(SelectUserId, st.roster), ToFixed(x, 1), m.channel, NoFaults);
  }

  /** A loop over rows none of which scans leaves the state as it was. */
  lemma {:induction false} DeliverRowsSkipsUnscannable(st: State, rows: seq<Row>, value: real, channel: ChannelId, faults: StoreFaults)
    requires forall i :: 0 <= i < |rows| ==> ScanKey(rows[i]) == None
    ensures DeliverRows(st, rows, value, channel, faults) == Step(st, Running)
  {
    if rows != [] {
      DeliverRowsSkipsUnscannable(st, rows[..|rows| - 1], value, channel, faults);
    }
  }

  // ---------------------------------------------------------------- routing

  /** The message handler, with the roster query of the reply handler projected as `q`:
      drop the bot's own messages; hand private messages to the reply handler; then, unless
      the process stopped, run the command the text names. */
  function MessageStep(env: Env, st: State, m: Message, faults: StoreFaults, q: RosterQuery): Step
  {
    if m.author == env.self then Step(st, Running)
    else
      var after := if m.guild == "" then Reply(env, st, m, faults, q) else Step(st, Running);
      if after.outcome != Running then after
      else
        match Route(m.content)
        case NoCommand => after
        case PromptCommand => Step(PromptStep(env, after.state, m.author, m.channel), Running)
        case AddCommand => RegisterStep(after.state, m.author, faults)
  }

  /** The content `!gobot dm`, alone or followed by a space. */
  predicate IsPromptForm(content: string)
  {
    content == Prefix + " dm" || Prefix + " dm " <= content
  }

  /** The content `!gobot add`, alone or followed by a space. */
  predicate IsAddForm(content: string)
  {
    content == Prefix + " add" || Prefix + " add " <= content
  }

  /** The bot's own messages change nothing and send nothing. */
  lemma OwnMessageIgnored(env: Env, st: State, m: Message, faults: StoreFaults, q: RosterQuery)
    requires m.author == env.self
    ensures MessageStep(env, st, m, faults, q) == Step(st, Running)
  {
  }

  /** A server message `!gobot dm …` prompts its author, `!gobot add …` registers them, and
      any other content (not a command, an unknown word, an empty word) changes nothing. */
  lemma GuildMessageRouting(env: Env, st: State, m: Message, faults: StoreFaults, q: RosterQuery)
    requires m.author != env.self && m.guild != ""
    ensures IsPromptForm(m.content) ==>
      MessageStep(env, st, m, faults, q) == Step(PromptStep(env, st, m.author, m.channel), Running)
    ensures IsAddForm(m.content) ==>
      MessageStep(env, st, m, faults, q) == RegisterStep(st, m.author, faults)
    ensures !IsPromptForm(m.content) && !IsAddForm(m.content) ==>
      MessageStep(env, st, m, faults, q) == Step(st, Running)
  {
    RouteByWord(m.content);
  }

  /** A private message first goes to the reply handler; if that stops the process, nothing
      else happens; otherwise the text is parsed as a command against the state the reply
      handler left. */
  lemma PrivateMessageFallsThrough(env: Env, st: State, m: Message, faults: StoreFaults, q: RosterQuery)
    requires m.author != env.self && m.guild == ""
    ensures var after := Reply(env, st, m, faults, q);
      && (after.outcome != Running ==> MessageStep(env, st, m, faults, q) == after)
      && (after.outcome == Running && IsPromptForm(m.content) ==>
            MessageStep(env, st, m, faults, q) == Step(PromptStep(env, after.state, m.author, m.channel), Running))
      && (after.outcome == Running && IsAddForm(m.content) ==>
            MessageStep(env, st, m, faults, q) == RegisterStep(after.state, m.author, faults))
      && (!IsPromptForm(m.content) && !IsAddForm(m.content) ==>
            MessageStep(env, st, m, faults, q) == after)
  {
    RouteByWord(m.content);
  }

  /** As written, a pending reply that parses and is no command is confirmed, but the
      hours table and the pending map are left as they were. */
  lemma PrivateReplyAsWritten(env: Env, st: State, m: Message, x: real)
    requires m.author != env.self && m.guild == ""
    requires m.channel in st.responses
    requires env.parse(TrimSpace(m.content)) == Some(x)
    requires !IsPromptForm(m.content) && !IsAddForm(m.content)
    ensures var r := MessageStep(env, st, m, NoFaults, SelectUserId);
      && r.outcome == Running
      && r.state.hours == st.hours
      && r.state.responses == st.responses
      && r.state.outbox == st.outbox + [Sent(env.dmChannel(m.author), RecordingText(m.content))]
  {
    PrivateMessageFallsThrough(env, st, m, NoFaults, SelectUserId);
    ReplyAsWrittenRecordsNothing(env, st, m, x);
  }

  /** Every message keeps the store invariants, whichever roster query is used. */
  lemma MessageStepValid(env: Env, st: State, m: Message, faults: StoreFaults, q: RosterQuery)
    requires Valid(st)
    ensures Valid(MessageStep(env, st, m, faults, q).state)
  {
    if m.author != env.self {
      var after := if m.guild == "" then Reply(env, st, m, faults, q) else Step(st, Running);
      if m.guild == "" { ReplyValid(env, st, m, faults, q); }
      if after.outcome == Running && Route(m.content) == AddCommand {
        RegisterEffect(after.state, m.author, faults);
      }
    }
  }
}
