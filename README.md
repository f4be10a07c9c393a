# TeachPy chat-session store, in Dafny

TeachPy is a Streamlit tutoring chatbot. It keeps its chat history in Redis:
- The hash `teachpy:chat_sessions` maps a session id to a whole JSON record
  `{id, title, messages, created_at, display_time}`.
- The key `teachpy:current_session` names the active session.

This project models the part of `app.py` that owns that state:
- creating a session;
- getting or creating the current one;
- reading, appending and rolling back messages;
- the retitle when a session reaches its second message;
- listing sessions newest first;
- deleting with the current-session key cleared;
- selecting a session;
- the `created_at` timestamp format and the "Today" / "Yesterday" / weekday label.

Layout, one module per file:

- `wrappers.dfy`: `Option` and `Result`.
- `text_order.dfy`: Python's `<=` on `str` (`StrLe`). It is total and transitive, and comparing same-length prefixes decides the comparison.
- `calendar.dfy`: the proleptic Gregorian calendar of Python's `datetime`. It covers `toordinal`, `weekday`, the English weekday names that `%A` prints, and `date - timedelta(days=1)` (`PrevDate`).
- `timestamps.dfy`:
  - `strftime` and `strptime` for `"%Y-%m-%d %H:%M"` (`RenderTimestamp`, `ParseTimestamp`), with round trips both ways;
  - the proof that string order on these strings is chronological order;
  - `format_chat_timestamp` (`FormatChatTimestamp`), with the clock reading passed in.
- `sessions.dfy`:
  - `Role`, `Message` and `Session` records;
  - the stored state `StoreState` (the hash as a `map`, the current-session key as an `Option`);
  - one pure transition function per operation (`CreateSpec`, `AppendSpec`, `GetCurrentSpec`, `DeleteSpec`, `RollbackSpec`, `SelectSpec`, `SubmitSpec`) and the lemmas about them;
  - the store invariant and the proof that every operation keeps it.
- `listing.dfy`: the `get_all_sessions` summaries and the sort by `created_at`, newest first. `SortNewestFirst` is an insertion sort proved to return a newest-first permutation.
- `store.dfy`: the class `ChatStore`. Its fields `sessions` and `current` are the two Redis keys, and its methods perform the read-modify-write steps of `app.py`. Each mutating method ensures `State() == XxxSpec(old(State()), …)`. All but `SelectSession` keep `Valid()` unconditionally. `SelectSession` keeps it when the chosen id is stored, which holds for every id the sidebar lists. `GetAllSessions` is a loop over the hash entries followed by the sort.

The rollback (`app.py:280-285`) and the select-session write of the current-session key (`app.py:234-237`) sit inline in `main`. Here they are the methods `HandleFailedSend` and `SelectSession`. `SubmitMessage` models one submitted prompt (`app.py:256-285`). The model's answer is the parameter `reply`, and `None` stands for a call that raised.

Four consequences of the code are worth spelling out, because the source's own comments read as if they promised more:
- The comment at `app.py:149` says the title is updated "if it's the first user message". The code tests that the appended message is the user's and that the session then holds two messages. It does not check that no user message came before. A first prompt whose model call fails still retitles the session. The rollback pops only the message and keeps the new title, and the next prompt brings the count back to two and retitles again (`TitleChangesAfterFailedFirstPrompt`).
- The comment at `app.py:279` describes the rollback as removing the last user message, and that is all it does. The messages and every other record come back, but a title the rolled-back prompt set stays (`RollbackUndoesUserAppend`).
- The current-session key is tested for Python truth (`if not session_id`, `if current_session and …`), so an empty string counts as absent (`HasCurrent`).
- `create_new_session` formats the timestamp it has just taken from the clock. With one clock reading for both calls, its `display_time` is "Today" and the initial title is "New Session (Today)" (`FormatOwnTimestampIsToday`, `CreateEffect`). The source reads the clock twice, and the case where midnight falls between the two readings is under "Left out".

## Model

| member | source | states |
|---|---|---|
| `Timestamps.FormatChatTimestampLabels` | app.py:82-99 | The label is "Today" iff the parsed date has today's ordinal, and "Yesterday" iff it is exactly one day earlier. Otherwise it is the weekday name of the parsed date. Only the date counts, never the hour or minute. A string `strptime` rejects gives the ValueError case, and a clock on `date.min` gives the OverflowError of `today - timedelta(days=1)`. |
| `Timestamps.FormatOwnTimestampIsToday` | app.py:105-106 | A timestamp formatted against the clock reading it was written from is labelled "Today". |
| `Timestamps.FormatTodayExample` | app.py:93-94 | A timestamp from earlier on the same day is "Today". |
| `Timestamps.FormatYesterdayExample` | app.py:95-96 | 23:59 on 31 December, viewed at 00:15 on 1 January, is "Yesterday". This covers the date-only comparison across a year boundary. |
| `Timestamps.FormatWeekdayExample` | app.py:97-99 | A date two days back gives its weekday name: 2024-01-03 is "Wednesday". |
| `Timestamps.FormatMalformedExample` | app.py:85 | A non-existent date ("2024-02-30 10:00") is rejected as malformed, as `strptime` rejects it. |
| `Timestamps.ParseRenderRoundTrip` | app.py:105 | Parsing the `strftime("%Y-%m-%d %H:%M")` rendering of a valid minute gives back that minute. |
| `Timestamps.RenderParseRoundTrip` | app.py:85 | Every string the parser accepts is exactly the rendering of what it parsed to. |
| `Timestamps.RenderOrderIsChronological` | app.py:165-166 | Comparing two stored timestamps as strings agrees with comparing them in time (minutes since 0001-01-01), in both directions. |
| `Timestamps.PadOrder` | app.py:105 | Zero-padded numbers of the same width compare as strings exactly as the numbers compare. |
| `Timestamps.Pad` | app.py:105 | A padded field has exactly the requested width and holds only digits. |
| `Calendar.PrevDateIsOneDayEarlier` | app.py:90 | `today - timedelta(days=1)` is a valid date whose ordinal is exactly one less, across month and year ends and leap years. |
| `Calendar.OrdinalInjective` | app.py:93-96 | Two valid dates are equal iff their ordinals are equal. This is what lets the `==` date comparisons be read as day counts. |
| `Calendar.OrdinalMonotone` | app.py:93-96 | Ordinals follow calendar order. |
| `Calendar.PrevDateWeekday` | app.py:99 | The previous day has the previous weekday. |
| `Calendar.Weekday` | app.py:99 | The weekday index selects one of the seven names. |
| `Calendar.OrdinalOneIsMinDate` | app.py:90 | Only `date.min` has ordinal 1, so it is the one date without a predecessor. |
| `Calendar.DaysBeforeYearStep` | app.py:90 | The days before year y+1 are those before y plus the length of y (365, or 366 in a Gregorian leap year). |
| `TextOrder.StrLeTotal` | app.py:166 | Any two `created_at` strings are comparable. |
| `TextOrder.StrLeTransitive` | app.py:166 | String `<=` is transitive. |
| `TextOrder.StrLeConcat` | app.py:166 | Strings that begin with same-length pieces compare by those pieces first. |
| `Sessions.Retitle` | app.py:151 | The new title is the first `min(30, len)` characters of the content followed by "...", added even when nothing was cut. |
| `Sessions.AppendEffect` | app.py:143-152 | For a stored id, the session's messages become the old messages plus the new one at the end. The id, `created_at` and `display_time` stay, as do every other record and the current-session key. For a missing id the store is unchanged. |
| `Sessions.RetitleRule` | app.py:149-151 | The title becomes `Retitle(content)` exactly when the appended message is the user's and the session held one message. In every other case it is untouched. |
| `Sessions.CreateEffect` | app.py:101-127 | A new session has an id that was not stored and becomes current, and every earlier record is unchanged. Its record is `{id, "New Session (Today)", [greeting], created_at, "Today"}`, its messages read back as the greeting alone, and `created_at` parses back to the clock reading. |
| `Sessions.GetCurrentEffect` | app.py:129-134 | A set current-session key is returned and nothing changes. Otherwise a new session is created, holding only the greeting, and the returned id is now stored and current. |
| `Sessions.GetCurrentIdempotent` | app.py:129-134 | A second call right after the first returns the same id and changes nothing. |
| `Sessions.ReopenAfterCurrentCleared` | app.py:129-134 | With no current session, the call returns the fresh id and that session holds the greeting alone. |
| `Sessions.DeleteEffect` | app.py:168-173 | The record is removed and every other record is unchanged. The current-session key changes iff it named the deleted id, and then it is cleared. |
| `Sessions.DeleteCurrentThenReopen` | app.py:168-173 | After the current session is deleted, the next request for the current session creates a new session, whose id differs from the deleted one. |
| `Sessions.RollbackEffect` | app.py:280-285 | If the session exists and its last message is the user's, exactly that message is removed. The record is otherwise unchanged (id, title, `created_at`, `display_time`), and the other records and the current-session key stay. Otherwise the store is unchanged. |
| `Sessions.RollbackUndoesUserAppend` | app.py:280-285 | Rolling back a just-appended user turn restores the session's messages and every other record. The record comes back whole unless the session held one message before the turn, in which case the new title stays. |
| `Sessions.SubmitEffect` | app.py:256-285 | An answered prompt adds the user turn and then the reply. A failed call, or an empty prompt, leaves the messages as they were. The set of sessions, every other record and the current-session key are untouched. |
| `Sessions.TitleChangesAfterFailedFirstPrompt` | app.py:256-285 | A failed first prompt still retitles the session while its messages are restored, and the next answered prompt retitles it again. |
| `Sessions.AppendKeepsRecord` | app.py:143-152 | Appending keeps a well-formed record well formed: the greeting stays first, and the title matches a second message from the user. |
| `Sessions.AppendKeepsInvariant` | app.py:143-152 | Appending keeps the store invariant. |
| `Sessions.CreateKeepsInvariant` | app.py:101-127 | Creating keeps the store invariant. |
| `Sessions.GetCurrentKeepsInvariant` | app.py:129-134 | Getting the current session keeps the invariant and returns a stored id. |
| `Sessions.DeleteKeepsInvariant` | app.py:168-173 | Deleting keeps the invariant: the current-session key never names a missing session. |
| `Sessions.RollbackKeepsInvariant` | app.py:280-285 | The rollback never removes the greeting and keeps the invariant. |
| `Sessions.SelectKeepsInvariant` | app.py:234-237 | Selecting a stored session makes it current and keeps the invariant. |
| `Sessions.SubmitKeepsInvariant` | app.py:256-285 | A submitted prompt, answered or failed, keeps the invariant. |
| `Listing.InsertNewestFirst` | app.py:166 | Inserting into a newest-first list gives a newest-first list holding the old entries plus the new one, and the same ids plus the new id. |
| `Listing.SortNewestFirst` | app.py:166 | `sorted(…, key=created_at, reverse=True)` returns a permutation of its input in non-increasing `created_at` order. |
| `Listing.NewestFirstIsChronological` | app.py:165-166 | In a newest-first listing of well-formed timestamps, every later entry was created no later in time than every earlier one. |
| `Store.ChatStore.CreateNewSession` | app.py:101-127 | It writes the record with no messages, sets the current-session key and adds the greeting. It returns the fresh id, the new state is `CreateSpec` of the old one, and it keeps `Valid()`. |
| `Store.ChatStore.GetCurrentSession` | app.py:129-134 | The returned id and the new state are `GetCurrentSpec` of the old state. Under `Valid()` the id names a stored session. |
| `Store.ChatStore.GetSessionMessages` | app.py:136-141 | It returns the stored messages of the id, or the empty list for a missing id. |
| `Store.ChatStore.AddMessageToSession` | app.py:143-152 | It reads the record, appends, retitles when a user message brings the count to two, and writes the record back. The new state is `AppendSpec` of the old one, and it keeps `Valid()`. |
| `Store.ChatStore.GetAllSessions` | app.py:154-166 | It returns one summary per stored record, since the ids of the result are the hash's keys once each. Each summary holds that record's title, `created_at` and message count, and the list is sorted newest first. |
| `Store.ChatStore.DeleteSession` | app.py:168-173 | The new state is `DeleteSpec` of the old one, and it keeps `Valid()`. |
| `Store.ChatStore.HandleFailedSend` | app.py:280-285 | The new state is `RollbackSpec` of the old one, and it keeps `Valid()`. |
| `Store.ChatStore.SelectSession` | app.py:234-237 | The current-session key names the chosen id afterwards. Choosing a stored session keeps `Valid()`. |
| `Store.ChatStore.SubmitMessage` | app.py:256-285 | It stores the prompt, then stores the reply or rolls the prompt back. The new state is `SubmitSpec` of the old one, and it keeps `Valid()`. |

## Left out

- The Streamlit page: configuration, CSS, sidebar widgets, `st.rerun` and message rendering (`app.py:176-254` apart from the pieces above). It is presentation only.
- The sidebar's delete button (`app.py:225-231`) is not a member of its own. It calls `delete_session`, and then `create_new_session` only when the deleted id is the current session; both are modelled. For that case `DeleteCurrentThenReopen` states the sequence through `get_current_session`, which, with the key cleared by the delete, creates the new session the same way.
- The Gemini model: `get_gemini_model`, `start_chat`, `send_message`, the persona text, and recreating the chat handle when the session changes (`app.py:32-77, 199, 213, 230, 238, 267`). These are foreign calls. The answer enters as the `reply` parameter of `SubmitMessage`, where `None` means the call raised.
- Secrets, the Redis connection and `ping` (`app.py:10-26`). These are configuration and I/O. Redis failures are not modelled; every store call succeeds.
- JSON encoding of records. Records are Dafny values, and the `json.dumps`/`json.loads` round trip is taken as exact.
- `uuid.uuid4()` becomes the parameter `freshId`, required to be non-empty and not yet a key (`FreshId`).
- `datetime.now()` becomes the parameter `now`. `create_new_session` reads the clock twice (`app.py:105` and `app.py:86`), and the model uses one reading for both. A creation that straddles midnight, whose `display_time` would be "Yesterday", is therefore not modelled.
- ClockReading: the clock is taken to read a valid minute in a year from 1000 to 9999. Below 1000, glibc's `strftime("%Y")` writes fewer than four digits, which `strptime("%Y")` then rejects. The model does not cover that path.
- `strftime("%A")` is the fixed English weekday table `DayNames`, not locale-dependent output.
- ParseTimestamp: accepts only the zero-padded 16-character form that `strftime` writes. `strptime` also accepts single-digit month, day, hour and minute fields and runs of whitespace for the space. Such strings never reach it from the store, since every stored `created_at` comes from `strftime`.
- The `.decode('utf-8')` calls (`app.py:134, 160, 172`) are not modelled; ids are plain strings. The client is opened with `decode_responses=True` (`app.py:20`), so these values are already `str`. In Python 3, `str` has no `decode` method, so as written these lines would raise `AttributeError`.
- Store.ChatStore.GetAllSessions: does not state the relative order of sessions with equal `created_at`. Python's stable sort keeps the order in which `hgetall` yields them, and Redis does not specify that order.
- Concurrent writers. Two interleaved read-modify-write sequences on one record lose an update (last write wins). The model has one sequential caller.
