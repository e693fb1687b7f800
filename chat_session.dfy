/** A web chat session as the chat manager sees it: the fields it reads through the
    session's getters and the two it changes (`close` and the inactivity-warning latch). */
module ChatSessions {

  datatype Option<T> = None | Some(value: T)

  /** The address of the multi-user chat room a session has joined. */
  type RoomAddress = string

  /** The value of a session's fields at one moment, as the sweep reads them. */
  datatype SessionView = SessionView(
    closed: bool,               // isClosed()
    lastCheck: int,             // getLastCheck(): time of the last poll, 0 if never polled
    createdTimestamp: int,      // getCreatedTimestamp()
    inQueue: bool,              // isInQueue(): waiting for a room assignment
    warningSent: bool,          // isInactivityWarningSent()
    groupChat: Option<RoomAddress>)  // getGroupChat(): the joined room, or none

  class ChatSession {
    const sessionId: string     // getSessionID()
    const createdTimestamp: int
    var lastCheck: int
    var closed: bool
    var inQueue: bool
    var inactivityWarningSent: bool
    var groupChat: Option<RoomAddress>

    function View(): SessionView
      reads this
    {
      SessionView(closed, lastCheck, createdTimestamp, inQueue, inactivityWarningSent, groupChat)
    }

    /** A session in an assumed starting state: not yet polled, closed or warned.
        `ChatSession.java` is not part of this model, so this state is not taken from its
        constructor; the manager never creates sessions, and nothing here calls this. */
    constructor (id: string, created: int, queued: bool, room: Option<RoomAddress>)
      ensures sessionId == id
      ensures View() == SessionView(false, 0, created, queued, false, room)
    {
      sessionId := id;
      createdTimestamp := created;
      lastCheck := 0;
      closed := false;
      inQueue := queued;
      inactivityWarningSent := false;
      groupChat := room;
    }

    /** Marks the session closed; nothing else the manager reads changes. */
    method Close()
      modifies this
      ensures View() == old(View()).(closed := true)
    {
      closed := true;
    }

    method SetInactivityWarningSent(sent: bool)
      modifies this
      ensures View() == old(View()).(warningSent := sent)
    {
      inactivityWarningSent := sent;
    }
  }
}
