/** The browser-side chat store: a key-value store holding the session list
    under `chat-sessions` and each session's messages under
    `chat-messages-<session id>`. Ids and timestamps are parameters. */
module LocalChatStore {
  import opened Wrappers
  import opened ChatTypes
  import Strings

  const SessionsKey := "chat-sessions"
  const MessagesPrefix := "chat-messages-"
  const DefaultTitle := "New Chat"

  datatype LocalSession = LocalSession(id: string, title: string, createdAt: int)

  datatype LocalMessage = LocalMessage(id: string, sessionId: string, role: Role, content: string,
                                       toolInvocations: Option<string>, createdAt: int)

  /** A value in the store: a session list, a message list, or a value
      some other part of the application put there. */
  datatype StoredValue = SessionList(sessions: seq<LocalSession>) | MessageList(messages: seq<LocalMessage>) | Foreign

  function MessagesKey(sessionId: string): string {
    MessagesPrefix + sessionId
  }

  /** The keys `clearAllLocalData` deletes. */
  predicate IsChatKey(key: string) {
    key == SessionsKey || Strings.StartsWith(key, MessagesPrefix)
  }

  /** The session list with the title of every session with the given id
      replaced. */
  function Retitled(sessions: seq<LocalSession>, sessionId: string, title: string): (r: seq<LocalSession>)
    ensures |r| == |sessions|
    ensures forall k :: 0 <= k < |r| ==> r[k].id == sessions[k].id && r[k].createdAt == sessions[k].createdAt
    ensures forall k :: 0 <= k < |r| ==> r[k].title == (if sessions[k].id == sessionId then title else sessions[k].title)
  {
    seq(|sessions|, k requires 0 <= k < |sessions| =>
      if sessions[k].id == sessionId then sessions[k].(title := title) else sessions[k])
  }

  /** The session list without the sessions with the given id, in order. */
  function Without(sessions: seq<LocalSession>, sessionId: string): (r: seq<LocalSession>)
    ensures forall k :: 0 <= k < |r| ==> r[k].id != sessionId && r[k] in sessions
    ensures forall s :: s in sessions && s.id != sessionId ==> s in r
    ensures |r| <= |sessions|
  {
    if sessions == [] then []
    else if sessions[0].id == sessionId then Without(sessions[1..], sessionId)
    else [sessions[0]] + Without(sessions[1..], sessionId)
  }

  /** Filtering distributes over concatenation, so it keeps the relative
      order of the sessions it keeps. */
  lemma {:induction false} WithoutAppend(front: seq<LocalSession>, back: seq<LocalSession>, sessionId: string)
    ensures Without(front + back, sessionId) == Without(front, sessionId) + Without(back, sessionId)
    decreases |front|
  {
    if front == [] {
      assert front + back == back;
    } else {
      assert (front + back)[1..] == front[1..] + back;
      WithoutAppend(front[1..], back, sessionId);
    }
  }

  /** The store: a map from key to value. */
  class LocalStore {
    var entries: map<string, StoredValue>

    constructor(initial: map<string, StoredValue>)
      ensures entries == initial
    {
      entries := initial;
    }

    /** `getLocalSessions`: the stored list, or none. */
    function Sessions(): (r: seq<LocalSession>)
      reads this
      ensures SessionsKey !in entries ==> r == []
    {
      SessionsIn(entries)
    }

    /** `getLocalSession`: the first session with the given id. */
    function Session(sessionId: string): (r: Option<LocalSession>)
      reads this
      ensures r.Some? ==> exists i ::
        && 0 <= i < |Sessions()| && Sessions()[i] == r.value && r.value.id == sessionId
        && forall j :: 0 <= j < i ==> Sessions()[j].id != sessionId
      ensures r.None? ==> forall k :: 0 <= k < |Sessions()| ==> Sessions()[k].id != sessionId
    {
      FirstWithId(Sessions(), sessionId)
    }

    /** `getLocalMessages`: the stored list of a session, or none. */
    function Messages(sessionId: string): (r: seq<LocalMessage>)
      reads this
      ensures MessagesKey(sessionId) !in entries ==> r == []
    {
      MessagesIn(entries, sessionId)
    }

    /** `createLocalSession`: appends a session with the given title, or
      `"New Chat"`, to the list. */
    method CreateLocalSession(title: Option<string>, id: string, now: int) returns (session: LocalSession)
      modifies this
      ensures session == LocalSession(id, title.GetOr(DefaultTitle), now)
      ensures entries == old(entries)[SessionsKey := SessionList(old(Sessions()) + [session])]
    {
      var sessions := Sessions();
      session := LocalSession(id, title.GetOr(DefaultTitle), now);
      entries := entries[SessionsKey := SessionList(sessions + [session])];
    }

    /** `updateLocalSessionTitle`: rewrites the list with the title of the
      matching sessions changed. */
    method UpdateLocalSessionTitle(sessionId: string, title: string)
      modifies this
      ensures entries == old(entries)[SessionsKey := SessionList(Retitled(old(Sessions()), sessionId, title))]
    {
      var sessions := Sessions();
      entries := entries[SessionsKey := SessionList(Retitled(sessions, sessionId, title))];
    }

    /** `deleteLocalSession`: drops the session from the list and deletes
      its messages. */
    method DeleteLocalSession(sessionId: string)
      modifies this
      ensures entries == (old(entries)[SessionsKey := SessionList(Without(old(Sessions()), sessionId))]) - {MessagesKey(sessionId)}
    {
      var sessions := Sessions();
      entries := entries[SessionsKey := SessionList(Without(sessions, sessionId))];
      entries := entries - {MessagesKey(sessionId)};
    }

    /** `addLocalMessage`: appends a message to the session's list. */
    method AddLocalMessage(sessionId: string, role: Role, content: string, toolInvocations: Option<string>,
                           id: string, now: int) returns (message: LocalMessage)
      modifies this
      ensures message == LocalMessage(id, sessionId, role, content, toolInvocations, now)
      ensures entries == old(entries)[MessagesKey(sessionId) := MessageList(old(Messages(sessionId)) + [message])]
    {
      var messages := Messages(sessionId);
      message := LocalMessage(id, sessionId, role, content, toolInvocations, now);
      entries := entries[MessagesKey(sessionId) := MessageList(messages + [message])];
    }

    /** `getAllLocalData`: the sessions, and the messages of every session
      by its id. */
    method GetAllLocalData() returns (sessions: seq<LocalSession>, messages: map<string, seq<LocalMessage>>)
      ensures sessions == Sessions()
      ensures forall id :: id in messages <==> exists k :: 0 <= k < |sessions| && sessions[k].id == id
      ensures forall id :: id in messages ==> messages[id] == Messages(id)
    {
      sessions := Sessions();
      messages := map[];
      var i := 0;
      while i < |sessions|
        invariant 0 <= i <= |sessions|
        invariant forall id :: id in messages <==> exists k :: 0 <= k < i && sessions[k].id == id
        invariant forall id :: id in messages ==> messages[id] == Messages(id)
      {
        messages := messages[sessions[i].id := Messages(sessions[i].id)];
        i := i + 1;
      }
    }

    /** `clearAllLocalData`: deletes the session list and every message
      list, and nothing else. */
    method ClearAllLocalData()
      modifies this
      ensures entries == map key | key in old(entries) && !IsChatKey(key) :: old(entries)[key]
    {
      var pending := entries.Keys;
      ghost var start := entries;
      while pending != {}
        invariant pending <= start.Keys
        invariant forall key :: key in entries <==> key in start && (key in pending || !IsChatKey(key))
        invariant forall key :: key in entries ==> entries[key] == start[key]
        decreases |pending|
      {
        var key :| key in pending;
        if IsChatKey(key) {
          entries := entries - {key};
        }
        pending := pending - {key};
      }
    }
  }

  /** `sessions.find(s => s.id === sessionId)`. */
  function FirstWithId(sessions: seq<LocalSession>, sessionId: string): (r: Option<LocalSession>)
    ensures r.Some? ==> exists i ::
      && 0 <= i < |sessions| && sessions[i] == r.value && r.value.id == sessionId
      && forall j :: 0 <= j < i ==> sessions[j].id != sessionId
    ensures r.None? ==> forall k :: 0 <= k < |sessions| ==> sessions[k].id != sessionId
  {
    if sessions == [] then None
    else if sessions[0].id == sessionId then Some(sessions[0])
    else
      var r := FirstWithId(sessions[1..], sessionId);
      assert forall i :: 1 <= i < |sessions| ==> sessions[i] == sessions[1..][i - 1];
      r
  }

  /** Adding a message leaves every other session's messages as they were. */
  lemma AddLeavesOtherSessions(before: map<string, StoredValue>, after: map<string, StoredValue>,
                               sessionId: string, other: string, m: LocalMessage)
    requires after == before[MessagesKey(sessionId) := MessageList(MessagesIn(before, sessionId) + [m])]
    requires other != sessionId
    ensures MessagesIn(after, other) == MessagesIn(before, other)
    ensures MessagesIn(after, sessionId) == MessagesIn(before, sessionId) + [m]
  {
    assert MessagesKey(other)[|MessagesPrefix|..] == other;
    assert MessagesKey(sessionId)[|MessagesPrefix|..] == sessionId;
  }

  /** The session list in a store's entries. */
  function SessionsIn(entries: map<string, StoredValue>): seq<LocalSession> {
    if SessionsKey in entries && entries[SessionsKey].SessionList? then entries[SessionsKey].sessions else []
  }

  /** After deleting a session, no session with its id is listed and its
      messages are gone. */
  lemma DeleteRemovesSession(before: map<string, StoredValue>, after: map<string, StoredValue>, sessionId: string)
    requires after == (before[SessionsKey := SessionList(Without(SessionsIn(before), sessionId))]) - {MessagesKey(sessionId)}
    ensures forall k :: 0 <= k < |SessionsIn(after)| ==> SessionsIn(after)[k].id != sessionId
    ensures MessagesIn(after, sessionId) == []
    ensures forall key :: key != SessionsKey && key != MessagesKey(sessionId) ==> (key in after <==> key in before)
  {
    assert SessionsKey != MessagesKey(sessionId) by {
      assert MessagesKey(sessionId)[..5] == "chat-";
      assert MessagesKey(sessionId)[5] == 'm' && SessionsKey[5] == 's';
    }
  }

  /** The message list of a session in a store's entries. */
  function MessagesIn(entries: map<string, StoredValue>, sessionId: string): seq<LocalMessage> {
    var key := MessagesKey(sessionId);
    if key in entries && entries[key].MessageList? then entries[key].messages else []
  }
}
