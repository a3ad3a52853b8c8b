/**
 * The bot process: the pending-reply map, the roster, the hours table and
 * the messages sent are fields that the handlers update in place. Each
 * method is proved to leave exactly the state, and report exactly the
 * outcome, that the corresponding `Workflow` function describes.
 */
module Bot {
  import opened Wrappers
  import opened Rounding
  import opened Text
  import opened Store
  import opened Workflow

  class Bot {
    const env: Env
    /** The projection of the roster query: `SelectUserId` runs the handler as written,
        `SelectKeyAndUserId` the corrected one. */
    const query: RosterQuery
    var responses: map<ChannelId, Answer>
    var roster: seq<Registered>
    var nextKey: nat
    var hours: seq<HoursRow>
    var outbox: seq<Sent>

    /** The fields as a `Workflow.State`. */
    function Snapshot(): State
      reads this
    {
      State(responses, roster, nextKey, hours, outbox)
    }

    ghost predicate Valid()
      reads this
    {
      Workflow.Valid(Snapshot())
    }

    /** A bot with no pending replies, an empty roster, no hours and nothing sent. */
    constructor (env: Env, query: RosterQuery)
      ensures this.env == env && this.query == query
      ensures Snapshot() == Initial && Valid()
    {
      this.env := env;
      this.query := query;
      responses, roster, nextKey, hours, outbox := map[], [], 0, [], [];
    }

    /** `UserPropmtHandler`. */
    method Prompt(author: UserId, trigger: ChannelId)
      requires Valid()
      modifies this
      ensures Valid()
      ensures Snapshot() == PromptStep(env, old(Snapshot()), author, trigger)
    {
      var ch := env.dmChannel(author);
      if ch !in responses {
        responses := responses[ch := Answer(trigger, -1.0)];
        outbox := outbox + [Sent(ch, PromptText)];
      } else {
        outbox := outbox + [Sent(ch, ReminderText)];
      }
    }

    /** `UserAddHandler`. */
    method Register(author: UserId, faults: StoreFaults) returns (o: Outcome)
      requires Valid()
      modifies this
      ensures Valid()
      ensures Step(Snapshot(), o) == RegisterStep(old(Snapshot()), author, faults)
    {
      RegisterEffect(Snapshot(), author, faults);
      match LookupUser(roster, author, faults.userLookup)
      case NoRow =>
        if faults.userInsert {
          o := Halted(StoreFailed);
        } else {
          roster := roster + [Registered(nextKey, author)];
          nextKey := nextKey + 1;
          o := Running;
        }
      case Found =>
        o := Halted(AlreadyRegistered);
      case Failure =>
        o := Halted(StoreFailed);
    }

    /** `UserDMHandler` for one roster key. */
    method Deliver(key: nat, value: real, channel: ChannelId, faults: StoreFaults) returns (o: Outcome)
      requires Valid()
      modifies this
      ensures Valid()
      ensures Step(Snapshot(), o) == DeliverStep(old(Snapshot()), key, value, channel, faults)
    {
      DeliverStepValid(Snapshot(), key, value, channel, faults);
      match LookupHours(hours, key, key in faults.hoursLookup) {
        case Failure =>
          return Halted(StoreFailed);
        case NoRow =>
          if key in faults.hoursWrite {
            return Halted(StoreFailed);
          }
          hours := InsertHours(hours, key, value);
        case Found =>
          if key in faults.hoursWrite {
            return Halted(StoreFailed);
          }
          hours := SetHours(hours, key, value);
      }
      responses := responses - {channel};
      o := Running;
    }

    /** `UserGetHoursHandler`: the reply handler, with its loop over the roster rows run
        one row after the other. */
    method ReceiveReply(m: Message, faults: StoreFaults) returns (o: Outcome)
      requires Valid()
      modifies this
      ensures Valid()
      ensures Step(Snapshot(), o) == Reply(env, old(Snapshot()), m, faults, query)
    {
      if m.channel !in responses {
        return Running;
      }
      var response := responses[m.channel];
      var parsed := env.parse(TrimSpace(m.content));
      if parsed.None? {
        return Halted(BadNumber);
      }
      var value := ToFixed(parsed.value, 1);
      // Only the local copy changes; the entry in `responses` keeps its value.
      response := response.(hours := value);
      outbox := outbox + [Sent(env.dmChannel(m.author), RecordingText(m.content))];
      if faults.rosterQuery {
        return Halted(RosterUnavailable);
      }
      o := DeliverAll(RosterRows(query, roster), value, m.channel, faults);
    }

    /** The loop over the roster rows: scan each row and deliver the value for its key,
        until a delivery stops the process. */
    method DeliverAll(rows: seq<Row>, value: real, channel: ChannelId, faults: StoreFaults) returns (o: Outcome)
      requires Valid()
      modifies this
      ensures Valid()
      ensures Step(Snapshot(), o) == DeliverRows(old(Snapshot()), rows, value, channel, faults)
    {
      o := Running;
      var i := 0;
      while i < |rows| && o == Running
        invariant 0 <= i <= |rows|
        invariant Valid()
        invariant Step(Snapshot(), o) == DeliverRows(old(Snapshot()), rows[..i], value, channel, faults)
      {
        assert rows[..i + 1][..i] == rows[..i];
        match ScanKey(rows[i]) {
          case None =>
          case Some(key) =>
            o := Deliver(key, value, channel, faults);
        }
        i := i + 1;
      }
      if o == Running {
        assert rows[..i] == rows;
      } else {
        DeliverRowsStopped(old(Snapshot()), rows, i, value, channel, faults);
      }
    }

    /** The message handler registered with the chat session. */
    method OnMessage(m: Message, faults: StoreFaults) returns (o: Outcome)
      requires Valid()
      modifies this
      ensures Valid()
      ensures Step(Snapshot(), o) == MessageStep(env, old(Snapshot()), m, faults, query)
    {
      if m.author == env.self {
        return Running;
      }
      o := Running;
      if m.guild == "" {
        o := ReceiveReply(m, faults);
        if o != Running {
          return;
        }
      }
      match Route(m.content)
      case NoCommand =>
      case PromptCommand =>
        Prompt(m.author, m.channel);
      case AddCommand =>
        o := Register(m.author, faults);
    }
  }
}
