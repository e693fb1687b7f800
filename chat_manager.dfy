/** The chat manager: the registry of web chat sessions keyed by chat id, and the sweep
    that closes, warns and removes stale sessions once per tick. */
module ChatManagement {
  import opened ChatSessions
  import opened StalePolicy

  /** Removing keys from a map never makes it larger. */
  lemma {:induction false} SubmapSize<K, V>(small: map<K, V>, large: map<K, V>)
    requires small.Keys <= large.Keys
    ensures |small| <= |large|
    decreases |large|
  {
    if small != map[] {
      var k :| k in small;
      SubmapSize(small - {k}, large - {k});
    }
  }

  class ChatManager {
    var sessions: map<string, ChatSession>

    /** Every session is registered under its own session id, the key the sweep
        removes it by. */
    ghost predicate Valid()
      reads this
    {
      forall k :: k in sessions ==> sessions[k].sessionId == k
    }

    constructor ()
      ensures Valid() && sessions == map[]
    {
      sessions := map[];
    }

    /** Registers a session under a caller-chosen id, replacing any session there. */
    method AddChatSession(chatID: string, chatSession: ChatSession)
      modifies this
      ensures sessions == old(sessions)[chatID := chatSession]
      ensures old(Valid()) && chatSession.sessionId == chatID ==> Valid()
    {
      sessions := sessions[chatID := chatSession];
    }

    /** The session registered under chatID, or null. */
    method GetChatSession(chatID: string) returns (chatSession: ChatSession?)
      ensures chatSession != null <==> chatID in sessions
      ensures chatSession != null ==> chatSession == sessions[chatID]
    {
      chatSession := if chatID in sessions then sessions[chatID] else null;
    }

    /** Unregisters chatID and returns the session that was there, or null. */
    method RemoveChatSession(chatID: string) returns (removed: ChatSession?)
      modifies this
      ensures removed != null <==> chatID in old(sessions)
      ensures removed != null ==> removed == old(sessions)[chatID]
      ensures sessions == old(sessions) - {chatID}
      ensures old(Valid()) ==> Valid()
    {
      removed := if chatID in sessions then sessions[chatID] else null;
      sessions := sessions - {chatID};
    }

    method GetNumberOfSessions() returns (count: nat)
      ensures count == |sessions|
    {
      count := |sessions|;
    }

    /** A copy of the registered sessions, one entry per key, in an unspecified order;
        `keys` gives the key of each entry. */
    method Snapshot() returns (snapshot: seq<ChatSession>, ghost keys: seq<string>)
      ensures |snapshot| == |keys| == |sessions|
      ensures forall i :: 0 <= i < |keys| ==> keys[i] in sessions && snapshot[i] == sessions[keys[i]]
      ensures forall i, j :: 0 <= i < j < |keys| ==> keys[i] != keys[j]
      ensures forall k :: k in sessions ==> k in keys
      ensures forall s :: s in snapshot <==> s in sessions.Values
    {
      snapshot, keys := [], [];
      var rest := sessions.Keys;
      while rest != {}
        invariant rest <= sessions.Keys
        invariant |snapshot| == |keys| && |keys| + |rest| == |sessions|
        invariant forall i :: 0 <= i < |keys| ==>
          keys[i] in sessions && keys[i] !in rest && snapshot[i] == sessions[keys[i]]
        invariant forall i, j :: 0 <= i < j < |keys| ==> keys[i] != keys[j]
        invariant forall k :: k in sessions ==> k in rest || k in keys
        invariant forall s :: s in snapshot ==> s in sessions.Values
        decreases rest
      {
        var k :| k in rest;
        snapshot, keys := snapshot + [sessions[k]], keys + [k];
        rest := rest - {k};
      }
    }

    /** Closes and unregisters the session under chatID; nothing happens if there is none,
        so a second call with the same id changes nothing. */
    method CloseChatSession(chatID: string)
      modifies this, if chatID in sessions then {sessions[chatID]} else {}
      ensures sessions == old(sessions) - {chatID}
      ensures chatID !in old(sessions) ==> sessions == old(sessions)
      ensures chatID in old(sessions) ==>
        old(sessions)[chatID].View() == old(sessions[chatID].View()).(closed := true)
      ensures old(Valid()) ==> Valid()
    {
      var chatSession := GetChatSession(chatID);
      if chatSession != null {
        chatSession.Close();
        var removed := RemoveChatSession(chatID);
      }
    }

    /** Closes every registered session and empties the registry. */
    method DestroyAllSessions()
      modifies this, sessions.Values
      ensures sessions == map[] && Valid()
      ensures forall s :: s in old(sessions).Values ==> s.View() == old(s.View()).(closed := true)
    {
      var rest := sessions.Values;
      while rest != {}
        invariant sessions == old(sessions) && rest <= sessions.Values
        invariant forall s :: s in sessions.Values ==>
          s.View() == if s in rest then old(s.View()) else old(s.View()).(closed := true)
        decreases rest
      {
        var chatSession :| chatSession in rest;
        chatSession.Close();
        rest := rest - {chatSession};
      }
      sessions := map[];
    }

    /** The sweep's decision tree applied to one registered session. */
    method SweepSession(chatSession: ChatSession, now: int, delivered: bool, warnings: map<string, Warning>)
      returns (warnings': map<string, Warning>)
      requires Valid() && chatSession.sessionId in sessions && sessions[chatSession.sessionId] == chatSession
      modifies this, chatSession
      ensures Valid()
      ensures var a := Decide(old(chatSession.View()), now);
        && chatSession.View() == After(old(chatSession.View()), a, delivered)
        && sessions == (if a.Removes() then old(sessions) - {chatSession.sessionId} else old(sessions))
        && warnings' == (if a.Warn? then warnings[chatSession.sessionId := a.message] else warnings)
    {
      warnings' := warnings;
      var lastCheck := chatSession.lastCheck;
      if chatSession.closed {
        if lastCheck < now - MaximumStaleSessionLengthMs {
          var removed := RemoveChatSession(chatSession.sessionId);
        }
      } else if lastCheck != 0 {
        if now - lastCheck > MaximumInactiveTimeMs {
          chatSession.Close();
          var removed := RemoveChatSession(chatSession.sessionId);
        } else if !chatSession.inactivityWarningSent && now - lastCheck > InactiveTimeWarningMs {
          if chatSession.groupChat.Some? {
            var inactivityInSecs := InactivitySeconds(now - lastCheck);
            var message := Warning(chatSession.groupChat.value, WarningText(inactivityInSecs));
            warnings' := warnings'[chatSession.sessionId := message];
            if delivered {
              chatSession.SetInactivityWarningSent(true);
            }
          }
        }
      } else if !chatSession.inQueue && now - chatSession.createdTimestamp > MaximumInactiveTimeMs {
        chatSession.Close();
        var removed := RemoveChatSession(chatSession.sessionId);
      }
    }

    /** Applies the decision tree to every session of a snapshot, one after the other. */
    method SweepSnapshot(snapshot: seq<ChatSession>, ghost keys: seq<string>, now: int, delivered: string -> bool)
      returns (warnings: map<string, Warning>)
      requires Valid() && |snapshot| == |keys|
      requires forall j :: 0 <= j < |keys| ==> keys[j] in sessions && snapshot[j] == sessions[keys[j]]
      requires forall i, j :: 0 <= i < j < |keys| ==> keys[i] != keys[j]
      modifies this, sessions.Values
      ensures Valid()
      ensures sessions.Keys <= old(sessions).Keys
      ensures forall k :: k in sessions ==> sessions[k] == old(sessions)[k]
      ensures warnings.Keys <= old(sessions).Keys
      ensures forall j :: 0 <= j < |snapshot| ==>
        Swept(old(snapshot[j].View()), now, delivered(keys[j]), snapshot[j].View(), keys[j] in sessions,
              if keys[j] in warnings then Some(warnings[keys[j]]) else None)
    {
      warnings := map[];
      var i := 0;
      while i < |snapshot|
        invariant 0 <= i <= |snapshot|
        invariant Valid()
        invariant sessions.Keys <= old(sessions).Keys
        invariant forall k :: k in sessions ==> sessions[k] == old(sessions)[k]
        invariant warnings.Keys <= old(sessions).Keys
        invariant forall j :: 0 <= j < |snapshot| ==> snapshot[j].sessionId == keys[j]
        invariant forall j :: i <= j < |snapshot| ==>
          keys[j] in sessions && snapshot[j].View() == old(snapshot[j].View()) && keys[j] !in warnings
        invariant forall j :: 0 <= j < i ==>
          Swept(old(snapshot[j].View()), now, delivered(keys[j]), snapshot[j].View(), keys[j] in sessions,
                if keys[j] in warnings then Some(warnings[keys[j]]) else None)
      {
        label Before:
        ghost var previous := warnings;
        warnings := SweepSession(snapshot[i], now, delivered(snapshot[i].sessionId), warnings);
        forall j | 0 <= j < |snapshot| && j != i
          ensures snapshot[j].View() == old@Before(snapshot[j].View())
          ensures keys[j] in sessions <==> old@Before(keys[j] in sessions)
          ensures keys[j] in warnings <==> keys[j] in previous
          ensures keys[j] in warnings ==> warnings[keys[j]] == previous[keys[j]]
        {
          assert keys[j] != keys[i];
        }
        i := i + 1;
      }
    }

    /** One tick of the stale-session sweep at time `now`, over a snapshot of the sessions
        taken before any removal. `delivered(id)` is whether the inactivity warning to the
        room of session `id` reaches it. Returns, by session id, every warning it tried to send. */
    method RemoveStaleChats(now: int, delivered: string -> bool) returns (warnings: map<string, Warning>)
      requires Valid()
      modifies this, sessions.Values
      ensures Valid()
      ensures sessions.Keys <= old(sessions).Keys && |sessions| <= old(|sessions|)
      ensures forall k :: k in sessions ==> sessions[k] == old(sessions)[k]
      ensures forall k :: k in old(sessions) ==>
        (k in sessions <==> !Decide(old(sessions[k].View()), now).Removes())
      ensures forall k :: k in old(sessions) ==>
        old(sessions)[k].View() == After(old(sessions[k].View()), Decide(old(sessions[k].View()), now), delivered(k))
      ensures warnings.Keys <= old(sessions).Keys
      ensures forall k :: k in old(sessions) ==>
        (k in warnings <==> Decide(old(sessions[k].View()), now).Warn?)
      ensures forall k :: k in warnings ==> warnings[k] == Decide(old(sessions[k].View()), now).message
    {
      var snapshot;
      ghost var keys;
      snapshot, keys := Snapshot();
      warnings := SweepSnapshot(snapshot, keys, now, delivered);
      forall k | k in old(sessions)
        ensures Swept(old(sessions[k].View()), now, delivered(k), old(sessions)[k].View(), k in sessions,
                      if k in warnings then Some(warnings[k]) else None)
      {
        var j :| 0 <= j < |keys| && keys[j] == k;
      }
      SubmapSize(sessions, old(sessions));
    }
  }

  /** How one session came out of a tick: its fields, whether it is still registered and
      the warning sent for it, as the policy prescribes for its fields `v` before the tick. */
  ghost predicate Swept(v: SessionView, now: int, delivered: bool, after: SessionView,
                        registered: bool, warning: Option<Warning>)
  {
    var a := Decide(v, now);
    && after == After(v, a, delivered)
    && (registered <==> !a.Removes())
    && (warning.Some? <==> a.Warn?)
    && (warning.Some? ==> warning.value == a.message)
  }
}
