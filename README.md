# Web chat session registry and stale-session sweep

A Dafny model of the core of the Fastpath web chat `ChatManager`: the registry of web
chat sessions (a map from chat id to `ChatSession`, with add, get, remove, count,
close-one and destroy-all) and the stale-session sweep `removeStaleChats`, which runs once
per timer tick and, for each session of a snapshot of the registry, either removes it,
closes and removes it, sends the room an inactivity warning and sets the warning latch,
or does nothing.

Layout:

- `decimal_text.dfy`, module `DecimalText`: `Long.toString` of a non-negative value
  (`DecimalString`), its inverse (`ParseDecimal`) and `substring(0, length - 3)`
  (`DropLastThree`), with the fact that dropping three digits divides by 1000.
- `chat_session.dfy`, module `ChatSessions`: the `ChatSession` class, with exactly the
  state the manager reads through the getters `getSessionID`, `getLastCheck`, `isClosed`,
  `isInQueue`, `isInactivityWarningSent`, `getGroupChat`, `getCreatedTimestamp`, and the two
  mutators it calls, `close` (modelled as setting `closed`) and `setInactivityWarningSent`.
  `SessionView` is the value of those fields at one moment. `ChatSession.java` is not part
  of this model; its fields are modelled from their use in `ChatManager.java`.
- `stale_policy.dfy`, module `StalePolicy`: the three thresholds (30 minutes, 60 seconds,
  10 seconds), the sweep's decision tree for one session as a pure function `Decide`, the
  session's fields after the tick (`After`), the warning text, and the lemmas stating the
  lifecycle policy; `Run` follows one session over any number of ticks without a poll.
- `chat_manager.dfy`, module `ChatManagement`: the `ChatManager` class whose `sessions`
  map field the registry operations update in place, and the sweep as methods
  (`RemoveStaleChats` takes a snapshot, `SweepSnapshot` is the loop, `SweepSession` the
  loop body), each proved against `Decide` and `After`.

Time (`System.currentTimeMillis()`) is the parameter `now` of the sweep. The outcome of
sending the warning to the room is the parameter `delivered`, by session id; the sweep
returns, by session id, every warning it tried to send.

`Valid()` states that every session is registered under its own session id. The sweep
removes sessions by `getSessionID()` while `addChatSession` stores them under a
caller-supplied id, so the sweep's contract is stated for registries where the two agree;
`AddChatSession` keeps `Valid()` exactly when the id it is given is the session's own.

Two details of the code that the model keeps:

- A failed send leaves the latch clear: `setInactivityWarningSent(true)` follows
  `sendMessage` inside the `try` (`ChatManager.java:137-149`), so the next tick in the
  warning window sends again. `LatchOnDeliveryOnly` states this.
- The seconds in the warning are the decimal digits of the millisecond count with the
  last three dropped (`ChatManager.java:135-136`), which `InactivitySeconds` models and
  `DropLastThreeDigits` shows equal to division by 1000 rounding down.

## Model

| member | source | states |
|---|---|---|
| `DecimalText.DecimalString` | war/src/main/java/org/jivesoftware/webchat/ChatManager.java:135 | `Long.toString` of a non-negative inactivity: at least one character, all decimal digits, a leading `0` only for zero, and exactly as many digits as the value's decimal length (one digit below 10, `10^(len-1) <= n < 10^len` from 10 on) |
| `DecimalText.ParseDecimalString` | war/src/main/java/org/jivesoftware/webchat/ChatManager.java:135 | reading the digits back gives the number: `ParseDecimal(DecimalString(n)) == n` for every `n` |
| `DecimalText.DropLastThree` | war/src/main/java/org/jivesoftware/webchat/ChatManager.java:136 | `substring(0, length() - 3)`: defined from three characters on, the result is the string's prefix three characters shorter |
| `DecimalText.DropLastThreeDigits` | war/src/main/java/org/jivesoftware/webchat/ChatManager.java:136 | for values of at least 1000 the digit string has at least three characters and dropping the last three gives the digits of `n / 1000` |
| `StalePolicy.InactivitySeconds` | war/src/main/java/org/jivesoftware/webchat/ChatManager.java:135-136 | the seconds text is defined from 100 ms on (where the substring is in range) and, from 1000 ms on, equals the decimal digits of the inactivity divided by 1000 |
| `StalePolicy.WarningText` | war/src/main/java/org/jivesoftware/webchat/ChatManager.java:140 | the warning body carries the seconds text unchanged between the fixed prefix and suffix |
| `StalePolicy.Decide` | war/src/main/java/org/jivesoftware/webchat/ChatManager.java:113-161 | the decision tree, first matching branch wins; its contract says only closed sessions are removed without closing, only open ones are closed and removed, and a warning goes to the session's own room; the lemmas below state the rest of the policy |
| `StalePolicy.After` | war/src/main/java/org/jivesoftware/webchat/ChatManager.java:126-156 | the effect on the session's fields: `closed` becomes set only by close-and-remove (lines 126, 156), the latch only by a delivered warning (line 146), and the poll time, creation time, queue flag and room never change |
| `StalePolicy.Run` | war/src/main/java/org/jivesoftware/webchat/ChatManager.java:108-164 | the sweep repeated over ticks with no poll in between: the poll time and queue flag never change, a closed session stays closed, and a session that leaves the registry is always closed |
| `StalePolicy.ClosedSession` | war/src/main/java/org/jivesoftware/webchat/ChatManager.java:115-118 | a closed session is removed exactly when `lastCheck < now - 30 min` (strict); it is never closed again or warned, and its fields do not change |
| `StalePolicy.InactiveSessionReaped` | war/src/main/java/org/jivesoftware/webchat/ChatManager.java:120-130 | an open session with `lastCheck != 0` and `now - lastCheck > 60 s` is closed and removed in the same tick |
| `StalePolicy.WarningConditions` | war/src/main/java/org/jivesoftware/webchat/ChatManager.java:120-134 | a warning is chosen exactly when the session is open, polled, not yet warned, has a room and `10 s < now - lastCheck <= 60 s`; an open, polled session within 60 s is never closed or removed |
| `StalePolicy.WarningMessage` | war/src/main/java/org/jivesoftware/webchat/ChatManager.java:133-144 | the warning goes to the session's own room and its text states `(now - lastCheck) / 1000` as its decimal digits |
| `StalePolicy.LatchOnDeliveryOnly` | war/src/main/java/org/jivesoftware/webchat/ChatManager.java:137-149 | the latch is set exactly when the send succeeds; after a failed send the session is unchanged and a later tick in the warning window warns again; after a successful one no later tick warns |
| `StalePolicy.NeverPolledSession` | war/src/main/java/org/jivesoftware/webchat/ChatManager.java:152-160 | an open never-polled session is closed and removed exactly when `!inQueue && now - createdTimestamp > 60 s`, and otherwise left alone |
| `StalePolicy.AtMostOneWarningPerStall` | war/src/main/java/org/jivesoftware/webchat/ChatManager.java:132-149 | over any sequence of ticks without a poll, at most one warning reaches the room (none if the session was already warned), whatever sends fail |
| `StalePolicy.QueuedNeverPolledSurvives` | war/src/main/java/org/jivesoftware/webchat/ChatManager.java:152-160 | a queued, never-polled open session stays registered and unchanged over any sequence of ticks, whatever its age |
| `ChatSessions.ChatSession.Close` | war/src/main/java/org/jivesoftware/webchat/ChatManager.java:126 | closing sets `closed` and changes no other field the manager reads |
| `ChatSessions.ChatSession.SetInactivityWarningSent` | war/src/main/java/org/jivesoftware/webchat/ChatManager.java:146 | sets the warning latch to the given value and nothing else |
| `ChatManagement.ChatManager.constructor` | war/src/main/java/org/jivesoftware/webchat/ChatManager.java:88-92 | a new manager has an empty registry |
| `ChatManagement.ChatManager.AddChatSession` | war/src/main/java/org/jivesoftware/webchat/ChatManager.java:172-174 | afterwards the id maps to the session (silently replacing any previous one) and every other key is unchanged; the registry stays keyed by session id when the given id is the session's own |
| `ChatManagement.ChatManager.GetChatSession` | war/src/main/java/org/jivesoftware/webchat/ChatManager.java:183-185 | returns the session registered under the id, and null exactly when the id is absent |
| `ChatManagement.ChatManager.RemoveChatSession` | war/src/main/java/org/jivesoftware/webchat/ChatManager.java:193-195 | returns the prior session (null exactly when absent) and afterwards the key is absent and every other key unchanged |
| `ChatManagement.ChatManager.GetNumberOfSessions` | war/src/main/java/org/jivesoftware/webchat/ChatManager.java:211-213 | the number of registered sessions |
| `ChatManagement.ChatManager.Snapshot` | war/src/main/java/org/jivesoftware/webchat/ChatManager.java:109 | the copy of the registry's values the sweep iterates: it holds exactly the registered sessions, one entry per key, each the session under that key, every key covered once |
| `ChatManagement.ChatManager.CloseChatSession` | war/src/main/java/org/jivesoftware/webchat/ChatManager.java:220-226 | a registered session is closed and its key removed; on an absent id nothing changes, so a second call is a no-op |
| `ChatManagement.ChatManager.DestroyAllSessions` | war/src/main/java/org/jivesoftware/webchat/ChatManager.java:231-239 | every previously registered session is closed (no other field changes) and the registry is empty |
| `ChatManagement.ChatManager.SweepSession` | war/src/main/java/org/jivesoftware/webchat/ChatManager.java:112-162 | the loop body: the session's new fields are `After` of the action `Decide` chooses, it is unregistered exactly when that action removes, and a warning is recorded exactly when it warns |
| `ChatManagement.ChatManager.SweepSnapshot` | war/src/main/java/org/jivesoftware/webchat/ChatManager.java:111-163 | the loop: every snapshot entry ends as the policy prescribes for its fields before the tick, no key is added and surviving keys keep their session |
| `ChatManagement.ChatManager.RemoveStaleChats` | war/src/main/java/org/jivesoftware/webchat/ChatManager.java:108-164 | one tick: no key is added and the count never grows; each session is unregistered exactly when its decision removes it, keeps its key and object otherwise, ends with the fields `After` prescribes, and is warned exactly when its decision warns, with that decision's message |

## Left out

- `createConnection` and `isConnected` (`ChatManager.java:288-383`): connection set-up,
  login and listener wiring through the XMPP client library, which is network I/O.
- The timer that runs the sweep every second after five seconds, and the
  synchronized map: concurrency; the model runs one tick at a time on single-threaded state.
  `destroyAllSessions` replaces the synchronized map by a plain `HashMap`, which matters
  only for thread safety and is not modelled.
- `System.currentTimeMillis()`: the sweep takes `now` as a parameter.
- Building and sending the group-chat `Message`: the model keeps the room and text of the
  warning and takes the send's success as the parameter `delivered`; logging of a failed
  send is not modelled.
- `WorkgroupInitializer` and `WorkgroupStatus.initStatusListener`, and the settings and
  global-connection getters and setters (`ChatManager.java:246-280`): external side effects
  and plain accessors.
- `getChatSessions` returns a live view of the map in the source; the model only has the
  copy the sweep takes of it (`Snapshot`).
- `getInstance` and the singleton: the model constructs managers explicitly.
- Polls: nothing in `ChatManager.java` sets `lastCheck` or clears the warning latch, so the
  model has no operation for either; `Run` covers ticks without a poll.
- `ChatSession.close()` may do more than set `closed` (leave the room); only the flag is modelled.
- `FormUtils.java`: HTML form rendering from servlet requests.
- ChatManagement.ChatManager.AddChatSession: null ids and null sessions are excluded, since
  the registry maps non-null strings to non-null sessions. The source's `HashMap` accepts
  both (`ChatManager.java:92`, `:173`). After such a `put`, `getChatSession` returns null for
  a key that is present (`:184`). `removeStaleChats` then throws `NullPointerException` at
  `:113`, and `destroyAllSessions` throws at `:236`, before the map is reset at `:238`.
- ChatManagement.ChatManager.RemoveStaleChats: requires that every session is registered
  under its own session id; the source runs on any map, where removing by `getSessionID()`
  can miss the session or remove a different key.
- ChatManagement.ChatManager.SweepSnapshot: requires the same (`Valid()`), for the same reason.
- ChatManagement.ChatManager.SweepSession: requires the same (`Valid()`), for the same reason.
- StalePolicy.Decide: timestamps are unbounded integers; the 64-bit wrap-around of Java's
  `long` subtraction is not modelled, as real millisecond timestamps are far from it.
