/** The lifecycle policy the chat manager's sweep applies to one session in one tick:
    which of remove, close-and-remove, warn or nothing it chooses, what the session looks
    like afterwards, and the text of the inactivity warning. */
module StalePolicy {
  import opened ChatSessions
  import opened DecimalText

  /** A closed session whose last poll is older than this is removed. */
  const MaximumStaleSessionLengthMs: int := 30 * 60 * 1000
  /** An open session not polled for longer than this is closed and removed. */
  const MaximumInactiveTimeMs: int := 60 * 1000
  /** An open session not polled for longer than this gets an inactivity warning. */
  const InactiveTimeWarningMs: int := 10 * 1000

  const WarningPrefix: string := "The webchat client connection appears to unstable. No data has been received in the last "
  const WarningSuffix: string := " seconds."

  /** A group-chat message for the room of an inactive session. */
  datatype Warning = Warning(room: RoomAddress, text: string)

  /** What one tick of the sweep does to one session. */
  datatype Action = Remove | CloseAndRemove | Warn(message: Warning) | Keep {
    predicate Removes() {
      Remove? || CloseAndRemove?
    }
  }

  /** The inactivity in whole seconds: the decimal digits of the inactivity in
      milliseconds with the last three dropped. The substring is defined only from
      three digits on, that is from 100 ms. */
  function InactivitySeconds(elapsed: int): (secs: string)
    requires elapsed >= 100
    ensures elapsed >= 1000 ==> secs == DecimalString(elapsed / 1000)
  {
    assert Pow10(2) == 100;
    var ms := DecimalString(elapsed);
    if elapsed >= 1000 then DropLastThreeDigits(elapsed); DropLastThree(ms)
    else DropLastThree(ms)
  }

  function WarningText(secs: string): (text: string)
    ensures |text| == |WarningPrefix| + |secs| + |WarningSuffix|
    ensures text[|WarningPrefix|..|WarningPrefix| + |secs|] == secs
  {
    WarningPrefix + secs + WarningSuffix
  }

  /** The decision tree of one sweep tick for a session whose fields read `v` at time `now`. */
  function Decide(v: SessionView, now: int): (a: Action)
    ensures a == Remove ==> v.closed
    ensures a == CloseAndRemove ==> !v.closed
    ensures a.Warn? ==> v.groupChat.Some? && a.message.room == v.groupChat.value
  {
    if v.closed then
      if v.lastCheck < now - MaximumStaleSessionLengthMs then Remove else Keep
    else if v.lastCheck != 0 then
      if now - v.lastCheck > MaximumInactiveTimeMs then CloseAndRemove
      else if !v.warningSent && now - v.lastCheck > InactiveTimeWarningMs then
        match v.groupChat
        case Some(room) => Warn(Warning(room, WarningText(InactivitySeconds(now - v.lastCheck))))
        case None => Keep
      else Keep
    else if !v.inQueue && now - v.createdTimestamp > MaximumInactiveTimeMs then CloseAndRemove
    else Keep
  }

  /** The session's fields after the tick carried out action `a`; `delivered` is the
      outcome of sending the warning to the room. */
  function After(v: SessionView, a: Action, delivered: bool): (w: SessionView)
    ensures w.lastCheck == v.lastCheck && w.createdTimestamp == v.createdTimestamp
    ensures w.inQueue == v.inQueue && w.groupChat == v.groupChat
    ensures w.closed <==> v.closed || a.CloseAndRemove?
    ensures w.warningSent <==> v.warningSent || (a.Warn? && delivered)
  {
    match a
    case Remove => v
    case CloseAndRemove => v.(closed := true)
    case Warn(_) => if delivered then v.(warningSent := true) else v
    case Keep => v
  }

  /** A closed session is removed exactly when its last poll is strictly older than the
      grace period; it is never closed again, and its fields do not change. */
  lemma ClosedSession(v: SessionView, now: int, delivered: bool)
    requires v.closed
    ensures Decide(v, now).Removes() <==> v.lastCheck < now - MaximumStaleSessionLengthMs
    ensures Decide(v, now) == Remove || Decide(v, now) == Keep
    ensures After(v, Decide(v, now), delivered) == v
  {
  }

  /** An open, polled session inactive for longer than the timeout is closed and removed
      in the same tick. */
  lemma InactiveSessionReaped(v: SessionView, now: int, delivered: bool)
    requires !v.closed && v.lastCheck != 0 && now - v.lastCheck > MaximumInactiveTimeMs
    ensures Decide(v, now) == CloseAndRemove
    ensures After(v, Decide(v, now), delivered) == v.(closed := true)
  {
  }

  /** A warning is sent exactly to open, polled, not yet warned sessions with a room whose
      inactivity lies in the warning window; an open, polled session within the timeout is
      never closed or removed. */
  lemma WarningConditions(v: SessionView, now: int)
    ensures Decide(v, now).Warn? <==>
      && !v.closed && v.lastCheck != 0 && !v.warningSent && v.groupChat.Some?
      && InactiveTimeWarningMs < now - v.lastCheck <= MaximumInactiveTimeMs
    ensures !v.closed && v.lastCheck != 0 && now - v.lastCheck <= MaximumInactiveTimeMs
      ==> !Decide(v, now).Removes()
  {
  }

  /** The warning goes to the session's room and states the inactivity in whole seconds:
      the decimal digits of the inactivity divided by 1000 (`ParseDecimalString` reads
      them back). */
  lemma WarningMessage(v: SessionView, now: int)
    requires Decide(v, now).Warn?
    ensures v.groupChat.Some? && Decide(v, now).message.room == v.groupChat.value
    ensures Decide(v, now).message.text == WarningText(DecimalString((now - v.lastCheck) / 1000))
  {
  }

  /** The latch is set only when the warning was delivered; after a failed send the
      session is unchanged, so a later tick in the same window warns again. */
  lemma LatchOnDeliveryOnly(v: SessionView, now: int, delivered: bool, later: int)
    requires Decide(v, now).Warn?
    ensures After(v, Decide(v, now), delivered).warningSent == delivered
    ensures !delivered ==> After(v, Decide(v, now), delivered) == v
    ensures !delivered && InactiveTimeWarningMs < later - v.lastCheck <= MaximumInactiveTimeMs
      ==> Decide(After(v, Decide(v, now), delivered), later).Warn?
    ensures delivered ==> !Decide(After(v, Decide(v, now), delivered), later).Warn?
  {
  }

  /** An open session that never polled is closed and removed exactly when it is not
      queued and was created longer than the timeout ago; otherwise nothing happens. */
  lemma NeverPolledSession(v: SessionView, now: int)
    requires !v.closed && v.lastCheck == 0
    ensures Decide(v, now) == CloseAndRemove <==>
      !v.inQueue && now - v.createdTimestamp > MaximumInactiveTimeMs
    ensures Decide(v, now) == CloseAndRemove || Decide(v, now) == Keep
  {
  }

  /** One tick's time and warning-delivery outcome. */
  datatype Tick = Tick(now: int, delivered: bool)

  /** A session's course over consecutive ticks with no poll in between: whether it is
      still registered, its fields, and how many warnings reached its room. */
  datatype Course = Course(registered: bool, view: SessionView, warningsDelivered: nat)

  function Run(v: SessionView, ticks: seq<Tick>): (c: Course)
    ensures c.view.lastCheck == v.lastCheck && c.view.inQueue == v.inQueue
    ensures v.closed ==> c.view.closed
    ensures !c.registered ==> c.view.closed
    decreases |ticks|
  {
    if ticks == [] then Course(true, v, 0)
    else
      var a := Decide(v, ticks[0].now);
      var next := After(v, a, ticks[0].delivered);
      var sent := if a.Warn? && ticks[0].delivered then 1 else 0;
      if a.Removes() then Course(false, next, sent)
      else
        var rest := Run(next, ticks[1..]);
        Course(rest.registered, rest.view, rest.warningsDelivered + sent)
  }

  /** Without a new poll, at most one warning reaches the room, however many ticks pass
      and however many sends fail; none if the session was already warned. */
  lemma {:induction false} AtMostOneWarningPerStall(v: SessionView, ticks: seq<Tick>)
    ensures Run(v, ticks).warningsDelivered <= if v.warningSent then 0 else 1
    decreases |ticks|
  {
    if ticks != [] {
      var a := Decide(v, ticks[0].now);
      var next := After(v, a, ticks[0].delivered);
      if !a.Removes() {
        AtMostOneWarningPerStall(next, ticks[1..]);
      }
    }
  }

  /** A queued session that never polled stays registered and untouched, whatever its age. */
  lemma {:induction false} QueuedNeverPolledSurvives(v: SessionView, ticks: seq<Tick>)
    requires !v.closed && v.lastCheck == 0 && v.inQueue
    ensures Run(v, ticks) == Course(true, v, 0)
    decreases |ticks|
  {
    if ticks != [] {
      QueuedNeverPolledSurvives(v, ticks[1..]);
    }
  }
}
