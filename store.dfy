/** The chat-session store as the program drives it: the Redis hash
    `teachpy:chat_sessions` and the key `teachpy:current_session`, held as
    the fields of one object that every operation reads, rewrites and writes back. */
module Store {
  import opened Wrappers
  import opened Calendar
  import opened Timestamps
  import opened Sessions
  import opened Listing

  class ChatStore {
    /** `teachpy:chat_sessions`: session id to its whole record. */
    var sessions: map<string, Session>
    /** `teachpy:current_session`; `None` while the key is absent. */
    var current: Option<string>

    function State(): StoreState
      reads this
    {
      StoreState(sessions, current)
    }

    ghost predicate Valid()
      reads this
    {
      StoreInvariant(State())
    }

    /** An empty store: no records, no current session. */
    constructor ()
      ensures State() == StoreState(map[], None) && Valid()
    {
      sessions := map[];
      current := None;
    }

    /** `create_new_session`, with the id `uuid4()` returns and the clock
        reading passed in. */
    method CreateNewSession(freshId: string, now: DateTime) returns (id: string)
      requires FreshId(freshId, State()) && ClockReading(now)
      modifies this
      ensures id == freshId
      ensures State() == CreateSpec(old(State()), freshId, now)
      ensures old(Valid()) ==> Valid()
    {
      ghost var before := State();
      var timestamp := RenderTimestamp(now);
      FormatOwnTimestampIsToday(now);
      var formatted := FormatChatTimestamp(timestamp, now);
      var displayTime := formatted.value;
      sessions := sessions[freshId := Session(freshId, InitialTitle(displayTime), [], timestamp, displayTime)];
      current := Some(freshId);
      AddMessageToSession(freshId, GreetingMessage);
      id := freshId;
      if StoreInvariant(before) {
        CreateKeepsInvariant(before, freshId, now);
      }
    }

    /** `get_current_session`. */
    method GetCurrentSession(freshId: string, now: DateTime) returns (id: string)
      requires ClockReading(now)
      requires !HasCurrent(current) ==> FreshId(freshId, State())
      modifies this
      ensures Opened(State(), id) == GetCurrentSpec(old(State()), freshId, now)
      ensures old(Valid()) ==> Valid() && id in sessions
    {
      ghost var before := State();
      var stored := current;
      if !HasCurrent(stored) {
        id := CreateNewSession(freshId, now);
      } else {
        id := stored.value;
      }
      if StoreInvariant(before) {
        GetCurrentKeepsInvariant(before, freshId, now);
      }
    }

    /** `get_session_messages`. */
    method GetSessionMessages(id: string) returns (messages: seq<Message>)
      ensures messages == MessagesOf(State(), id)
    {
      if id in sessions {
        messages := sessions[id].messages;
      } else {
        messages := [];
      }
    }

    /** `add_message_to_session`: read the record, append, retitle when a
        user message brings the count to two, write it back; nothing happens
        for a missing id. */
    method AddMessageToSession(id: string, message: Message)
      modifies this
      ensures State() == AppendSpec(old(State()), id, message)
      ensures old(Valid()) ==> Valid()
    {
      ghost var before := State();
      if id in sessions {
        var session := sessions[id];
        session := session.(messages := session.messages + [message]);
        if message.role == User && |session.messages| == 2 {
          session := session.(title := Retitle(message.content));
        }
        sessions := sessions[id := session];
      }
      if StoreInvariant(before) {
        AppendKeepsInvariant(before, id, message);
      }
    }

    /** `get_all_sessions`: one summary per record, collected in whatever
        order the hash yields its entries, then sorted newest first. */
    method GetAllSessions() returns (summaries: seq<Summary>)
      ensures NewestFirst(summaries)
      ensures multiset(Ids(summaries)) == multiset(sessions.Keys)
      ensures |summaries| == |sessions|
      ensures SummariesOf(summaries, sessions)
    {
      var table := sessions;
      var remaining := table.Keys;
      var collected: seq<Summary> := [];
      while remaining != {}
        invariant remaining <= table.Keys
        invariant multiset(Ids(collected)) + multiset(remaining) == multiset(table.Keys)
        invariant SummariesOf(collected, table)
        decreases |remaining|
      {
        var id :| id in remaining;
        CollectStep(collected, remaining, table, id);
        collected := collected + [Summarize(id, table[id])];
        remaining := remaining - {id};
      }
      summaries := SortNewestFirst(collected);
      SortedListing(collected, summaries, sessions);
    }

    /** `delete_session`. */
    method DeleteSession(id: string)
      modifies this
      ensures State() == DeleteSpec(old(State()), id)
      ensures old(Valid()) ==> Valid()
    {
      sessions := sessions - {id};
      var stored := current;
      if HasCurrent(stored) && stored.value == id {
        current := None;
      }
    }

    /** The rollback in `main` after the model call raised. */
    method HandleFailedSend(id: string)
      modifies this
      ensures State() == RollbackSpec(old(State()), id)
      ensures old(Valid()) ==> Valid()
    {
      ghost var before := State();
      if id in sessions {
        var session := sessions[id];
        if |session.messages| > 0 && session.messages[|session.messages| - 1].role == User {
          session := session.(messages := session.messages[..|session.messages| - 1]);
          sessions := sessions[id := session];
        }
      }
      if StoreInvariant(before) {
        RollbackKeepsInvariant(before, id);
      }
    }

    /** Clicking a listed session in `main`: make it current. */
    method SelectSession(id: string)
      modifies this
      ensures State() == SelectSpec(old(State()), id)
      ensures current == Some(id)
      ensures old(Valid()) && id in old(sessions) ==> Valid()
    {
      if current != Some(id) {
        current := Some(id);
      }
    }

    /** A submitted prompt in `main`: store it, then store the model's reply,
        or roll the prompt back when the call raised (`reply == None`). */
    method SubmitMessage(id: string, prompt: string, reply: Option<string>)
      modifies this
      ensures State() == SubmitSpec(old(State()), id, prompt, reply)
      ensures old(Valid()) ==> Valid()
    {
      ghost var before := State();
      if prompt != "" {
        AddMessageToSession(id, Message(User, prompt));
        match reply {
          case Some(text) =>
            AddMessageToSession(id, Message(Assistant, text));
          case None =>
            HandleFailedSend(id);
        }
      }
      if StoreInvariant(before) {
        SubmitKeepsInvariant(before, id, prompt, reply);
      }
    }
  }

  lemma CollectStep(collected: seq<Summary>, remaining: set<string>, table: map<string, Session>, id: string)
    requires id in remaining && remaining <= table.Keys
    requires multiset(Ids(collected)) + multiset(remaining) == multiset(table.Keys)
    requires SummariesOf(collected, table)
    ensures var x := Summarize(id, table[id]);
      && multiset(Ids(collected + [x])) + multiset(remaining - {id}) == multiset(table.Keys)
      && SummariesOf(collected + [x], table)
  {
    var x := Summarize(id, table[id]);
    IdsAppend(collected, x);
    assert multiset(remaining) == multiset(remaining - {id}) + multiset{id};
    assert (collected + [x])[|collected|] == x;
  }

  /** Sorting the collected summaries keeps every fact about them. */
  lemma SortedListing(collected: seq<Summary>, summaries: seq<Summary>, sessions: map<string, Session>)
    requires multiset(Ids(collected)) == multiset(sessions.Keys)
    requires SummariesOf(collected, sessions)
    requires multiset(summaries) == multiset(collected)
    requires multiset(Ids(summaries)) == multiset(Ids(collected))
    ensures |summaries| == |sessions|
    ensures SummariesOf(summaries, sessions)
  {
    assert |multiset(Ids(summaries))| == |multiset(sessions.Keys)|;
    forall i | 0 <= i < |summaries|
      ensures summaries[i].id in sessions && summaries[i] == Summarize(summaries[i].id, sessions[summaries[i].id])
    {
      assert summaries[i] in multiset(collected);
    }
  }
}
