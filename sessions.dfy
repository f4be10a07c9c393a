/** The chat-session records and the store's operations on them, as
    transitions of the stored state: the hash `teachpy:chat_sessions`
    (session id to record) and the scalar `teachpy:current_session`. */
module Sessions {
  import opened Wrappers
  import opened Calendar
  import opened Timestamps

  datatype Role = User | Assistant

  datatype Message = Message(role: Role, content: string)

  /** One stored record: `{id, title, messages, created_at, display_time}`. */
  datatype Session = Session(id: string, title: string, messages: seq<Message>, createdAt: string, displayTime: string)

  /** What the store holds. `current` is the value of the current-session key, `None` when the key is absent. */
  datatype StoreState = StoreState(sessions: map<string, Session>, current: Option<string>)

  /** A session id together with the state after the call that produced it. */
  datatype Opened = Opened(state: StoreState, id: string)

  const Greeting := "Hello! I am TeachPy. To get started, could you please tell me which version of Python you'd like to learn (Python 2 or Python 3) and what you would consider your current skill level: *Beginner*, *Intermediate*, or *Advanced*?"

  const GreetingMessage := Message(Assistant, Greeting)

  /** How many characters of the retitling user message the title keeps. */
  const TitleLength := 30

  function Min(a: int, b: int): int {
    if a < b then a else b
  }

  function InitialTitle(displayTime: string): string {
    "New Session (" + displayTime + ")"
  }

  /** The title taken from a user message: at most 30 characters of
      it, and always an ellipsis, even when nothing was cut. */
  function Retitle(content: string): (t: string)
    ensures |t| == Min(TitleLength, |content|) + 3
    ensures t[..|t| - 3] <= content && t[|t| - 3..] == "..."
  {
    content[..Min(TitleLength, |content|)] + "..."
  }

  /** Python's truth value of the current-session read: a missing key and an empty string are both false. */
  predicate HasCurrent(p: Option<string>) {
    p.Some? && p.value != ""
  }

  /** An id `uuid4()` may return: non-empty and not yet a key of the hash. */
  predicate FreshId(id: string, st: StoreState) {
    id != "" && id !in st.sessions
  }

  /** `get_session_messages`: the record's messages, or none for a missing id. */
  function MessagesOf(st: StoreState, id: string): seq<Message> {
    if id in st.sessions then st.sessions[id].messages else []
  }

  /** The record `add_message_to_session` writes back: the message appended
      and, when it is the user's turn that brings the count to two, the new title. */
  function AppendToRecord(s: Session, m: Message): Session {
    var messages := s.messages + [m];
    if m.role == User && |messages| == 2 then s.(messages := messages, title := Retitle(m.content))
    else s.(messages := messages)
  }

  /** `add_message_to_session`: a missing id is silently ignored. */
  function AppendSpec(st: StoreState, id: string, m: Message): StoreState {
    if id in st.sessions then st.(sessions := st.sessions[id := AppendToRecord(st.sessions[id], m)])
    else st
  }

  /** `create_new_session`: write the record with no messages, make it
      current, then add the greeting through `add_message_to_session`. */
  function CreateSpec(st: StoreState, id: string, now: DateTime): StoreState
    requires ClockReading(now)
  {
    var timestamp := RenderTimestamp(now);
    FormatOwnTimestampIsToday(now);
    var displayTime := FormatChatTimestamp(timestamp, now).value;
    var blank := Session(id, InitialTitle(displayTime), [], timestamp, displayTime);
    var written := StoreState(st.sessions[id := blank], Some(id));
    AppendSpec(written, id, GreetingMessage)
  }

  /** `get_current_session`: the current-session key if it is set, a new session otherwise. */
  function GetCurrentSpec(st: StoreState, freshId: string, now: DateTime): Opened
    requires ClockReading(now)
  {
    if HasCurrent(st.current) then Opened(st, st.current.value)
    else Opened(CreateSpec(st, freshId, now), freshId)
  }

  /** `delete_session`: drop the record, and the current-session key when it names it. */
  function DeleteSpec(st: StoreState, id: string): StoreState {
    var remaining := st.sessions - {id};
    if HasCurrent(st.current) && st.current.value == id then StoreState(remaining, None)
    else st.(sessions := remaining)
  }

  /** The rollback after a failed model call: pop the last message and write
      the record back, only when that message is the user's. */
  function RollbackSpec(st: StoreState, id: string): StoreState {
    if id in st.sessions then
      var s := st.sessions[id];
      if |s.messages| > 0 && s.messages[|s.messages| - 1].role == User then
        st.(sessions := st.sessions[id := s.(messages := s.messages[..|s.messages| - 1])])
      else st
    else st
  }

  /** Clicking a listed session: make it current unless it is already current. */
  function SelectSpec(st: StoreState, id: string): StoreState {
    if st.current != Some(id) then st.(current := Some(id)) else st
  }

  /** One submitted prompt: store the user's turn, then the model's reply, or
      roll the turn back when the call raised (`reply == None`). An empty
      prompt does nothing. */
  function SubmitSpec(st: StoreState, id: string, prompt: string, reply: Option<string>): StoreState {
    if prompt == "" then st
    else
      var asked := AppendSpec(st, id, Message(User, prompt));
      match reply
      case Some(text) => AppendSpec(asked, id, Message(Assistant, text))
      case None => RollbackSpec(asked, id)
  }

  /** A title the store can hold: the creation title, or one made by `Retitle`. */
  predicate TitleShape(s: Session) {
    s.title == InitialTitle(s.displayTime)
    || (3 <= |s.title| <= TitleLength + 3 && s.title[|s.title| - 3..] == "...")
  }

  /** What every stored record satisfies between operations. */
  predicate WellFormedRecord(key: string, s: Session) {
    && s.id == key
    && |s.messages| >= 1
    && s.messages[0] == GreetingMessage
    && (|s.messages| >= 2 && s.messages[1].role == User ==> s.title == Retitle(s.messages[1].content))
    && TitleShape(s)
    && ParseTimestamp(s.createdAt).Some?
  }

  /** Every record is well formed, and a set current-session key names a stored session. */
  predicate StoreInvariant(st: StoreState) {
    && (forall k :: k in st.sessions ==> WellFormedRecord(k, st.sessions[k]))
    && (HasCurrent(st.current) ==> st.current.value in st.sessions)
  }

  // ---------------------------------------------------------------------
  // Effects of the single operations

  /** Appending to a stored session puts the message at the end of its
      history and touches nothing else; a missing id leaves the store as it was. */
  lemma AppendEffect(st: StoreState, id: string, m: Message)
    ensures id in st.sessions ==> MessagesOf(AppendSpec(st, id, m), id) == MessagesOf(st, id) + [m]
    ensures id !in st.sessions ==> AppendSpec(st, id, m) == st
    ensures AppendSpec(st, id, m).sessions.Keys == st.sessions.Keys
    ensures AppendSpec(st, id, m).current == st.current
    ensures forall k :: k in st.sessions && k != id ==> AppendSpec(st, id, m).sessions[k] == st.sessions[k]
    ensures id in st.sessions ==>
      var s, s' := st.sessions[id], AppendSpec(st, id, m).sessions[id];
      s'.id == s.id && s'.createdAt == s.createdAt && s'.displayTime == s.displayTime
  {
  }

  /** The retitle: the title becomes the appended message's prefix plus
      "..." exactly when a user message brings the count to two; in every
      other case it stays. */
  lemma RetitleRule(s: Session, m: Message)
    ensures m.role == User && |s.messages| == 1 ==> AppendToRecord(s, m).title == Retitle(m.content)
    ensures !(m.role == User && |s.messages| == 1) ==> AppendToRecord(s, m).title == s.title
  {
  }

  /** A new session gets an id that was not stored, becomes current, holds the
      greeting alone, and every earlier record stays as it was. */
  lemma CreateEffect(st: StoreState, id: string, now: DateTime)
    requires FreshId(id, st) && ClockReading(now)
    ensures var st' := CreateSpec(st, id, now);
      && st'.sessions.Keys == st.sessions.Keys + {id}
      && st'.current == Some(id)
      && (forall k :: k in st.sessions ==> st'.sessions[k] == st.sessions[k])
      && MessagesOf(st', id) == [GreetingMessage]
      && st'.sessions[id] == Session(id, "New Session (Today)", [GreetingMessage], RenderTimestamp(now), "Today")
      && ParseTimestamp(st'.sessions[id].createdAt) == Some(now)
  {
    FormatOwnTimestampIsToday(now);
    ParseRenderRoundTrip(now);
  }

  /** With the current-session key set, asking for the current session returns it and
      changes nothing; without it, the answer is a new session that is now
      stored and current. */
  lemma GetCurrentEffect(st: StoreState, freshId: string, now: DateTime)
    requires ClockReading(now)
    requires !HasCurrent(st.current) ==> FreshId(freshId, st)
    ensures var o := GetCurrentSpec(st, freshId, now);
      && (HasCurrent(st.current) ==> o == Opened(st, st.current.value))
      && (!HasCurrent(st.current) ==> o.id == freshId && o.id !in st.sessions && MessagesOf(o.state, o.id) == [GreetingMessage])
      && o.state.current == Some(o.id) && HasCurrent(o.state.current)
  {
    if !HasCurrent(st.current) {
      CreateEffect(st, freshId, now);
    }
  }

  /** Asking twice in a row gives the same id, and the second call changes nothing. */
  lemma GetCurrentIdempotent(st: StoreState, id1: string, id2: string, now1: DateTime, now2: DateTime)
    requires ClockReading(now1) && ClockReading(now2)
    requires !HasCurrent(st.current) ==> FreshId(id1, st)
    ensures var o := GetCurrentSpec(st, id1, now1);
      GetCurrentSpec(o.state, id2, now2) == o
  {
    GetCurrentEffect(st, id1, now1);
  }

  /** Deleting removes exactly that record, and clears the current-session key exactly when it named it. */
  lemma DeleteEffect(st: StoreState, id: string)
    ensures var st' := DeleteSpec(st, id);
      && st'.sessions.Keys == st.sessions.Keys - {id}
      && (forall k :: k in st'.sessions ==> st'.sessions[k] == st.sessions[k])
      && (st'.current == None <==> st.current == None || (HasCurrent(st.current) && st.current.value == id))
      && (st'.current != st.current <==> HasCurrent(st.current) && st.current.value == id)
  {
  }

  /** After the current session is deleted, the next request for the current
      session creates a new one, whose id differs from the deleted one. */
  lemma DeleteCurrentThenReopen(st: StoreState, id: string, freshId: string, now: DateTime)
    requires StoreInvariant(st) && HasCurrent(st.current) && st.current.value == id
    requires FreshId(freshId, st) && ClockReading(now)
    ensures var o := GetCurrentSpec(DeleteSpec(st, id), freshId, now);
      o.id == freshId && o.id != id && MessagesOf(o.state, o.id) == [GreetingMessage]
  {
    var deleted := DeleteSpec(st, id);
    assert FreshId(freshId, deleted) && !HasCurrent(deleted.current);
    ReopenAfterCurrentCleared(deleted, freshId, now);
  }

  lemma ReopenAfterCurrentCleared(st: StoreState, freshId: string, now: DateTime)
    requires !HasCurrent(st.current) && FreshId(freshId, st) && ClockReading(now)
    ensures var o := GetCurrentSpec(st, freshId, now);
      o.id == freshId && MessagesOf(o.state, o.id) == [GreetingMessage]
  {
    CreateEffect(st, freshId, now);
  }

  /** The rollback removes one trailing user message and nothing else;
      otherwise the store is unchanged. */
  lemma RollbackEffect(st: StoreState, id: string)
    ensures var st' := RollbackSpec(st, id);
      && st'.current == st.current
      && st'.sessions.Keys == st.sessions.Keys
      && (forall k :: k in st.sessions && k != id ==> st'.sessions[k] == st.sessions[k])
      && (if id in st.sessions && |MessagesOf(st, id)| > 0 && MessagesOf(st, id)[|MessagesOf(st, id)| - 1].role == User
          then
            && |MessagesOf(st', id)| + 1 == |MessagesOf(st, id)|
            && MessagesOf(st, id) == MessagesOf(st', id) + [MessagesOf(st, id)[|MessagesOf(st, id)| - 1]]
            && st'.sessions[id] == st.sessions[id].(messages := MessagesOf(st', id))
          else st' == st)
  {
    if id in st.sessions {
      var msgs := st.sessions[id].messages;
      if |msgs| > 0 {
        assert msgs == msgs[..|msgs| - 1] + [msgs[|msgs| - 1]];
      }
    }
  }

  /** The rollback undoes a user's append on every message and every other
      record, but keeps a title the append set: the title is restored only
      when the session already had a user turn. */
  lemma RollbackUndoesUserAppend(st: StoreState, id: string, content: string)
    requires id in st.sessions
    ensures var st' := RollbackSpec(AppendSpec(st, id, Message(User, content)), id);
      && st' .current == st.current
      && st'.sessions.Keys == st.sessions.Keys
      && MessagesOf(st', id) == MessagesOf(st, id)
      && (forall k :: k in st.sessions && k != id ==> st'.sessions[k] == st.sessions[k])
      && (|st.sessions[id].messages| != 1 ==> st'.sessions[id] == st.sessions[id])
      && (|st.sessions[id].messages| == 1 ==> st'.sessions[id] == st.sessions[id].(title := Retitle(content)))
  {
    var s := st.sessions[id];
    assert (s.messages + [Message(User, content)])[..|s.messages|] == s.messages;
  }

  /** A submitted prompt whose model call fails leaves the session's
      messages as they were; one that is answered adds the prompt and the
      reply, in that order. No other record and not the current session
      changes. */
  lemma SubmitEffect(st: StoreState, id: string, prompt: string, reply: Option<string>)
    requires id in st.sessions
    ensures reply.None? || prompt == "" ==> MessagesOf(SubmitSpec(st, id, prompt, reply), id) == MessagesOf(st, id)
    ensures reply.Some? && prompt != "" ==>
      MessagesOf(SubmitSpec(st, id, prompt, reply), id) == MessagesOf(st, id) + [Message(User, prompt), Message(Assistant, reply.value)]
    ensures SubmitSpec(st, id, prompt, reply).current == st.current
    ensures SubmitSpec(st, id, prompt, reply).sessions.Keys == st.sessions.Keys
    ensures forall k :: k in st.sessions && k != id ==> SubmitSpec(st, id, prompt, reply).sessions[k] == st.sessions[k]
  {
    if prompt != "" {
      if reply.None? {
        RollbackUndoesUserAppend(st, id, prompt);
      }
    }
  }

  /** The title can change twice: a first prompt whose model call fails
      still retitles the session, and the next prompt retitles it again. */
  lemma TitleChangesAfterFailedFirstPrompt(st: StoreState, id: string, first: string, second: string, reply: string)
    requires id in st.sessions && |st.sessions[id].messages| == 1
    requires first != "" && second != ""
    ensures var failed := SubmitSpec(st, id, first, None);
      var answered := SubmitSpec(failed, id, second, Some(reply));
      && failed.sessions[id].title == Retitle(first)
      && MessagesOf(failed, id) == MessagesOf(st, id)
      && answered.sessions[id].title == Retitle(second)
  {
    RollbackUndoesUserAppend(st, id, first);
  }

  // ---------------------------------------------------------------------
  // The invariant is kept by every operation

  lemma AppendKeepsRecord(key: string, s: Session, m: Message)
    requires WellFormedRecord(key, s)
    ensures WellFormedRecord(key, AppendToRecord(s, m))
  {
    var s' := AppendToRecord(s, m);
    assert s'.messages[0] == s.messages[0];
    if |s'.messages| >= 2 && |s.messages| >= 2 {
      assert s'.messages[1] == s.messages[1];
    }
  }

  lemma AppendKeepsInvariant(st: StoreState, id: string, m: Message)
    requires StoreInvariant(st)
    ensures StoreInvariant(AppendSpec(st, id, m))
  {
    if id in st.sessions {
      AppendKeepsRecord(id, st.sessions[id], m);
    }
  }

  lemma CreateKeepsInvariant(st: StoreState, id: string, now: DateTime)
    requires StoreInvariant(st) && FreshId(id, st) && ClockReading(now)
    ensures StoreInvariant(CreateSpec(st, id, now))
  {
    CreateEffect(st, id, now);
    var st' := CreateSpec(st, id, now);
    assert WellFormedRecord(id, st'.sessions[id]);
  }

  lemma GetCurrentKeepsInvariant(st: StoreState, freshId: string, now: DateTime)
    requires StoreInvariant(st) && ClockReading(now)
    requires !HasCurrent(st.current) ==> FreshId(freshId, st)
    ensures var o := GetCurrentSpec(st, freshId, now);
      StoreInvariant(o.state) && o.id in o.state.sessions
  {
    if !HasCurrent(st.current) {
      CreateKeepsInvariant(st, freshId, now);
      CreateEffect(st, freshId, now);
    }
  }

  lemma DeleteKeepsInvariant(st: StoreState, id: string)
    requires StoreInvariant(st)
    ensures StoreInvariant(DeleteSpec(st, id))
  {
  }

  lemma RollbackKeepsInvariant(st: StoreState, id: string)
    requires StoreInvariant(st)
    ensures StoreInvariant(RollbackSpec(st, id))
  {
    if id in st.sessions {
      var s := st.sessions[id];
      if |s.messages| > 0 && s.messages[|s.messages| - 1].role == User {
        var s' := s.(messages := s.messages[..|s.messages| - 1]);
        assert |s.messages| >= 2;
        assert WellFormedRecord(id, s');
      }
    }
  }

  lemma SelectKeepsInvariant(st: StoreState, id: string)
    requires StoreInvariant(st) && id in st.sessions
    ensures StoreInvariant(SelectSpec(st, id)) && SelectSpec(st, id).current == Some(id)
  {
  }

  lemma SubmitKeepsInvariant(st: StoreState, id: string, prompt: string, reply: Option<string>)
    requires StoreInvariant(st)
    ensures StoreInvariant(SubmitSpec(st, id, prompt, reply))
  {
    if prompt != "" {
      var asked := AppendSpec(st, id, Message(User, prompt));
      AppendKeepsInvariant(st, id, Message(User, prompt));
      if reply.Some? {
        AppendKeepsInvariant(asked, id, Message(Assistant, reply.value));
      } else {
        RollbackKeepsInvariant(asked, id);
      }
    }
  }
}
