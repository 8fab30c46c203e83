/** The chat handlers of the backend: owner-checked queries and mutations
    over the session and message tables, and the import of a browser's
    local chats. The authenticated caller (or its absence) and the clock are
    parameters; a thrown error is an `Err` carrying its message. */
module ConvexChat {
  import opened Wrappers
  import opened ChatTypes
  import opened ConvexDb
  import LocalChatStore

  const DefaultTitle := "New Chat"
  const Unauthorized := "Unauthorized"
  const SessionNotFound := "Session not found"
  const MessageNotFound := "Message not found"
  const AnonymousSync := "Cannot sync to anonymous user"

  /** The caller is signed in and owns the session. */
  predicate Owns(t: Tables, user: Option<AuthUser>, sessionId: nat) {
    user.Some? && sessionId in t.sessions && t.sessions[sessionId].userId == user.value.id
  }

  /** The error of an owner check that failed. */
  function OwnerError(user: Option<AuthUser>): string {
    if user.None? then Unauthorized else SessionNotFound
  }

  // ---------------------------------------------------------------------
  // Queries

  /** `getSessions`: the caller's sessions, newest first; none without a
      caller. */
  function GetSessions(t: Tables, user: Option<AuthUser>): (r: seq<Doc<Session>>)
    ensures user.None? ==> r == []
    ensures forall k :: 0 <= k < |r| ==>
      r[k].id in t.sessions && r[k].value == t.sessions[r[k].id] && r[k].value.userId == user.value.id
    ensures forall i, j :: 0 <= i < j < |r| ==> r[i].id > r[j].id
  {
    if user.None? then [] else Descending(t.sessions, (s: Session) => s.userId == user.value.id, t.nextId)
  }

  /** Every session of the caller is listed. */
  lemma GetSessionsComplete(t: Tables, user: AuthUser, id: nat)
    requires Fresh(t) && id in t.sessions && t.sessions[id].userId == user.id
    ensures id in IdSet(GetSessions(t, Some(user)))
  {
  }

  /** `getSession`: the session when the caller owns it. */
  function GetSession(t: Tables, user: Option<AuthUser>, sessionId: nat): (r: Option<Session>)
    ensures r.Some? <==> Owns(t, user, sessionId)
    ensures r.Some? ==> r.value == t.sessions[sessionId]
  {
    if Owns(t, user, sessionId) then Some(t.sessions[sessionId]) else None
  }

  /** `getMessages`: the session's messages, oldest first, when the caller
      owns the session; none otherwise. */
  function GetMessages(t: Tables, user: Option<AuthUser>, sessionId: nat): (r: seq<Doc<Message>>)
    ensures !Owns(t, user, sessionId) ==> r == []
    ensures forall k :: 0 <= k < |r| ==>
      r[k].id in t.messages && r[k].value == t.messages[r[k].id] && r[k].value.sessionId == sessionId
    ensures Increasing(r)
  {
    if !Owns(t, user, sessionId) then [] else SessionMessages(t, sessionId)
  }

  /** The `by_session` index: the messages of a session in id order. */
  function SessionMessages(t: Tables, sessionId: nat): (r: seq<Doc<Message>>)
    ensures forall k :: 0 <= k < |r| ==>
      r[k].id in t.messages && r[k].value == t.messages[r[k].id] && r[k].value.sessionId == sessionId
    ensures Increasing(r)
    ensures IdSet(r) == Matching(t.messages, (m: Message) => m.sessionId == sessionId, t.nextId)
  {
    Ascending(t.messages, (m: Message) => m.sessionId == sessionId, t.nextId)
  }

  /** Every message of an owned session is listed. */
  lemma GetMessagesComplete(t: Tables, user: AuthUser, sessionId: nat, id: nat)
    requires Fresh(t) && Owns(t, Some(user), sessionId)
    requires id in t.messages && t.messages[id].sessionId == sessionId
    ensures id in IdSet(GetMessages(t, Some(user), sessionId))
  {
  }

  // ---------------------------------------------------------------------
  // Mutations

  /** `createSession`: a session of the caller, titled `"New Chat"` unless
      a title is given. */
  method CreateSession(db: Database, user: Option<AuthUser>, title: Option<string>, now: int)
    returns (r: Result<nat, string>)
    requires db.Valid()
    modifies db
    ensures db.Valid()
    ensures user.None? ==> r == Err(Unauthorized) && unchanged(db)
    ensures user.Some? ==>
      && r == Ok(old(db.nextId))
      && db.Snapshot() == InsertSession(old(db.Snapshot()), Session(user.value.id, title.GetOr(DefaultTitle), now))
  {
    if user.None? {
      return Err(Unauthorized);
    }
    var id := db.InsertSessionDoc(Session(user.value.id, title.GetOr(DefaultTitle), now));
    r := Ok(id);
  }

  /** `updateSessionTitle`: changes the title of a session the caller owns,
      and nothing else. */
  method UpdateSessionTitle(db: Database, user: Option<AuthUser>, sessionId: nat, title: string)
    returns (r: Result<(), string>)
    requires db.Valid()
    modifies db
    ensures db.Valid()
    ensures !Owns(old(db.Snapshot()), user, sessionId) ==>
      r == Err(OwnerError(user)) && unchanged(db)
    ensures Owns(old(db.Snapshot()), user, sessionId) ==>
      && r == Ok(())
      && db.Snapshot() == old(db.Snapshot()).(sessions := old(db.sessions)[sessionId := old(db.sessions)[sessionId].(title := title)])
  {
    if user.None? {
      return Err(Unauthorized);
    }
    if sessionId !in db.sessions || db.sessions[sessionId].userId != user.value.id {
      return Err(SessionNotFound);
    }
    db.sessions := db.sessions[sessionId := db.sessions[sessionId].(title := title)];
    r := Ok(());
  }

  /** `deleteSession`: removes a session the caller owns together with
      every message of it; nothing else changes. */
  method DeleteSession(db: Database, user: Option<AuthUser>, sessionId: nat) returns (r: Result<(), string>)
    requires db.Valid()
    modifies db
    ensures db.Valid()
    ensures !Owns(old(db.Snapshot()), user, sessionId) ==>
      r == Err(OwnerError(user)) && unchanged(db)
    ensures Owns(old(db.Snapshot()), user, sessionId) ==>
      && r == Ok(())
      && db.Snapshot() == old(db.Snapshot()).(sessions := old(db.sessions) - {sessionId},
                                               messages := Removed(old(db.messages), (m: Message) => m.sessionId == sessionId))
  {
    if user.None? {
      return Err(Unauthorized);
    }
    if sessionId !in db.sessions || db.sessions[sessionId].userId != user.value.id {
      return Err(SessionNotFound);
    }
    var messages := SessionMessages(db.Snapshot(), sessionId);
    MatchingAll(db.messages, (m: Message) => m.sessionId == sessionId, db.nextId);
    var _ := db.DeleteMessageDocs(messages);
    db.sessions := db.sessions - {sessionId};
    r := Ok(());
  }

  /** After a session is deleted it is not found and lists no messages,
      while every other session lists the same messages as before. */
  lemma DeleteSessionEffect(t: Tables, user: Option<AuthUser>, sessionId: nat, other: nat)
    ensures var after := t.(sessions := t.sessions - {sessionId},
                            messages := Removed(t.messages, (m: Message) => m.sessionId == sessionId));
      && GetSession(after, user, sessionId).None?
      && SessionMessages(after, sessionId) == []
      && (other != sessionId ==> SessionMessages(after, other) == SessionMessages(t, other))
  {
    var after := t.(sessions := t.sessions - {sessionId},
                     messages := Removed(t.messages, (m: Message) => m.sessionId == sessionId));
    NoneSelected(after.messages, (m: Message) => m.sessionId == sessionId, t.nextId);
    if other != sessionId {
      AscendingIgnoresRemoved(t.messages, (m: Message) => m.sessionId == sessionId,
                              (m: Message) => m.sessionId == other, t.nextId);
    }
  }

  /** `addMessage`: one new message in a session the caller owns, carrying
      the caller's id and no attachments. */
  method AddMessage(db: Database, user: Option<AuthUser>, sessionId: nat, role: Role, content: string,
                    toolInvocations: Option<string>, now: int) returns (r: Result<nat, string>)
    requires db.Valid()
    modifies db
    ensures db.Valid()
    ensures !Owns(old(db.Snapshot()), user, sessionId) ==>
      r == Err(OwnerError(user)) && unchanged(db)
    ensures Owns(old(db.Snapshot()), user, sessionId) ==>
      && r == Ok(old(db.nextId))
      && db.Snapshot() == InsertMessage(old(db.Snapshot()),
                                        Message(sessionId, user.value.id, role, content, toolInvocations, None, now))
  {
    if user.None? {
      return Err(Unauthorized);
    }
    if sessionId !in db.sessions || db.sessions[sessionId].userId != user.value.id {
      return Err(SessionNotFound);
    }
    var id := db.InsertMessageDoc(Message(sessionId, user.value.id, role, content, toolInvocations, None, now));
    r := Ok(id);
  }

  /** `updateMessage`: replaces the content and tool invocations of a
      message the caller wrote; every other field and record is kept. */
  method UpdateMessage(db: Database, user: Option<AuthUser>, messageId: nat, content: string,
                       toolInvocations: Option<string>) returns (r: Result<(), string>)
    requires db.Valid()
    modifies db
    ensures db.Valid()
    ensures var writes := user.Some? && messageId in old(db.messages) && old(db.messages)[messageId].userId == user.value.id;
      && (!writes ==> r == Err(if user.None? then Unauthorized else MessageNotFound) && unchanged(db))
      && (writes ==> (r == Ok(()) &&
          db.Snapshot() == old(db.Snapshot()).(messages := old(db.messages)[messageId :=
            old(db.messages)[messageId].(content := content, toolInvocations := toolInvocations)])))
  {
    if user.None? {
      return Err(Unauthorized);
    }
    if messageId !in db.messages || db.messages[messageId].userId != user.value.id {
      return Err(MessageNotFound);
    }
    db.messages := db.messages[messageId := db.messages[messageId].(content := content, toolInvocations := toolInvocations)];
    r := Ok(());
  }

  // ---------------------------------------------------------------------
  // Importing local chats

  /** The messages stored under a local session's id; none when absent. */
  function LocalMessagesOf(messages: map<string, seq<LocalChatStore.LocalMessage>>, id: string)
    : seq<LocalChatStore.LocalMessage>
  {
    if id in messages then messages[id] else []
  }

  /** The database after inserting the local messages, in order, into the
      session `sessionId` as the user's. */
  function SyncMessages(t: Tables, sessionId: nat, userId: string, ms: seq<LocalChatStore.LocalMessage>): Tables
  {
    if ms == [] then t
    else
      var m := ms[|ms| - 1];
      InsertMessage(SyncMessages(t, sessionId, userId, ms[..|ms| - 1]),
                    Message(sessionId, userId, m.role, m.content, m.toolInvocations, None, m.createdAt))
  }

  /** The database after importing one local session and its messages. */
  function SyncSession(t: Tables, userId: string, s: LocalChatStore.LocalSession,
                       messages: map<string, seq<LocalChatStore.LocalMessage>>): Tables
  {
    SyncMessages(InsertSession(t, Session(userId, s.title, s.createdAt)), t.nextId, userId, LocalMessagesOf(messages, s.id))
  }

  /** The database after importing the local sessions in order. */
  function Synced(t: Tables, userId: string, ss: seq<LocalChatStore.LocalSession>,
                  messages: map<string, seq<LocalChatStore.LocalMessage>>): Tables
  {
    if ss == [] then t
    else SyncSession(Synced(t, userId, ss[..|ss| - 1], messages), userId, ss[|ss| - 1], messages)
  }

  /** The number of local messages stored under the sessions' ids. */
  function MessageTotal(ss: seq<LocalChatStore.LocalSession>, messages: map<string, seq<LocalChatStore.LocalMessage>>): nat
  {
    if ss == [] then 0
    else MessageTotal(ss[..|ss| - 1], messages) + |LocalMessagesOf(messages, ss[|ss| - 1].id)|
  }

  /** `t2` holds every record of `t1` as it was, the same attachments, and
      every record it adds is the user's. */
  ghost predicate Extends(t1: Tables, t2: Tables, userId: string) {
    && (forall id :: id in t1.sessions ==> id in t2.sessions && t2.sessions[id] == t1.sessions[id])
    && (forall id :: id in t1.messages ==> id in t2.messages && t2.messages[id] == t1.messages[id])
    && (forall id :: id in t2.sessions && id !in t1.sessions ==> t2.sessions[id].userId == userId)
    && (forall id :: id in t2.messages && id !in t1.messages ==> t2.messages[id].userId == userId)
    && t2.attachments == t1.attachments
  }

  /** Importing messages adds exactly that many records, all the user's. */
  lemma {:induction false} SyncMessagesGrowth(t: Tables, sessionId: nat, userId: string,
                                              ms: seq<LocalChatStore.LocalMessage>)
    requires Fresh(t)
    ensures var r := SyncMessages(t, sessionId, userId, ms);
      && Fresh(r) && Extends(t, r, userId) && r.sessions == t.sessions
      && r.nextId == t.nextId + |ms|
      && |r.messages.Keys| == |t.messages.Keys| + |ms|
    decreases |ms|
  {
    if ms != [] {
      var before := SyncMessages(t, sessionId, userId, ms[..|ms| - 1]);
      SyncMessagesGrowth(t, sessionId, userId, ms[..|ms| - 1]);
      var m := ms[|ms| - 1];
      var msg := Message(sessionId, userId, m.role, m.content, m.toolInvocations, None, m.createdAt);
      InsertKeepsFresh(before, Session(userId, "", 0), msg);
      KeysAfterInsert(before.messages, before.nextId, msg);
    }
  }

  /** `Extends` is transitive. */
  lemma ExtendsTrans(t1: Tables, t2: Tables, t3: Tables, userId: string)
    requires Extends(t1, t2, userId) && Extends(t2, t3, userId)
    ensures Extends(t1, t3, userId)
  {
  }

  /** Importing one local session adds the session and one message per
      local message stored under its id, all the user's. */
  lemma SyncSessionGrowth(t: Tables, userId: string, s: LocalChatStore.LocalSession,
                          messages: map<string, seq<LocalChatStore.LocalMessage>>)
    requires Fresh(t)
    ensures var r := SyncSession(t, userId, s, messages);
      && Fresh(r) && Extends(t, r, userId)
      && r.nextId == t.nextId + 1 + |LocalMessagesOf(messages, s.id)|
      && |r.sessions.Keys| == |t.sessions.Keys| + 1
      && |r.messages.Keys| == |t.messages.Keys| + |LocalMessagesOf(messages, s.id)|
  {
    var session := Session(userId, s.title, s.createdAt);
    var t1 := InsertSession(t, session);
    InsertKeepsFresh(t, session, Message(0, "", User, "", None, None, 0));
    KeysAfterInsert(t.sessions, t.nextId, session);
    SyncMessagesGrowth(t1, t.nextId, userId, LocalMessagesOf(messages, s.id));
    ExtendsTrans(t, t1, SyncSession(t, userId, s, messages), userId);
  }

  /** Importing local sessions adds one session per local session and one
      message per local message stored under a session's id, all the
      user's, and keeps every existing record. */
  lemma {:induction false} SyncedGrowth(t: Tables, userId: string, ss: seq<LocalChatStore.LocalSession>,
                                        messages: map<string, seq<LocalChatStore.LocalMessage>>)
    requires Fresh(t)
    ensures var r := Synced(t, userId, ss, messages);
      && Fresh(r) && Extends(t, r, userId)
      && r.nextId == t.nextId + |ss| + MessageTotal(ss, messages)
      && |r.sessions.Keys| == |t.sessions.Keys| + |ss|
      && |r.messages.Keys| == |t.messages.Keys| + MessageTotal(ss, messages)
    decreases |ss|
  {
    if ss != [] {
      var before := Synced(t, userId, ss[..|ss| - 1], messages);
      SyncedGrowth(t, userId, ss[..|ss| - 1], messages);
      SyncSessionGrowth(before, userId, ss[|ss| - 1], messages);
      ExtendsTrans(t, before, Synced(t, userId, ss, messages), userId);
    }
  }

  datatype SyncCounts = SyncCounts(syncedSessions: nat, syncedMessages: nat)

  /** Inserts the local messages, in order, into the session `sessionId`
      as the user's. */
  method ImportMessages(db: Database, sessionId: nat, userId: string, ms: seq<LocalChatStore.LocalMessage>)
    requires db.Valid()
    modifies db
    ensures db.Valid()
    ensures db.Snapshot() == SyncMessages(old(db.Snapshot()), sessionId, userId, ms)
  {
    var j := 0;
    while j < |ms|
      invariant j <= |ms|
      invariant db.Valid()
      invariant db.Snapshot() == SyncMessages(old(db.Snapshot()), sessionId, userId, ms[..j])
    {
      var m := ms[j];
      var _ := db.InsertMessageDoc(Message(sessionId, userId, m.role, m.content, m.toolInvocations, None, m.createdAt));
      assert ms[..j + 1][..j] == ms[..j];
      j := j + 1;
    }
    FullPrefix(ms);
  }

  /** One pass of the loop of `syncFromLocal`: inserts the session, then
      its local messages; the count is the number of messages inserted. */
  method ImportSession(db: Database, userId: string, local: LocalChatStore.LocalSession,
                       messages: map<string, seq<LocalChatStore.LocalMessage>>) returns (count: nat)
    requires db.Valid()
    modifies db
    ensures db.Valid()
    ensures db.Snapshot() == SyncSession(old(db.Snapshot()), userId, local, messages)
    ensures count == |LocalMessagesOf(messages, local.id)|
  {
    var sessionId := db.InsertSessionDoc(Session(userId, local.title, local.createdAt));
    var sessionMessages := LocalMessagesOf(messages, local.id);
    ImportMessages(db, sessionId, userId, sessionMessages);
    count := |sessionMessages|;
  }

  /** `syncFromLocal`: imports the local sessions and their messages for a
      signed-in, non-anonymous caller and reports how many of each it
      inserted. */
  method SyncFromLocal(db: Database, user: Option<AuthUser>, sessions: seq<LocalChatStore.LocalSession>,
                       messages: map<string, seq<LocalChatStore.LocalMessage>>) returns (r: Result<SyncCounts, string>)
    requires db.Valid()
    modifies db
    ensures db.Valid()
    ensures user.None? ==> r == Err(Unauthorized) && unchanged(db)
    ensures user.Some? && user.value.isAnonymous ==> r == Err(AnonymousSync) && unchanged(db)
    ensures user.Some? && !user.value.isAnonymous ==>
      && r == Ok(SyncCounts(|sessions|, MessageTotal(sessions, messages)))
      && db.Snapshot() == Synced(old(db.Snapshot()), user.value.id, sessions, messages)
  {
    if user.None? {
      return Err(Unauthorized);
    }
    if user.value.isAnonymous {
      return Err(AnonymousSync);
    }
    var userId := user.value.id;
    var syncedSessions, syncedMessages := 0, 0;
    var i := 0;
    while i < |sessions|
      invariant i <= |sessions| && syncedSessions == i
      invariant db.Valid()
      invariant db.Snapshot() == Synced(old(db.Snapshot()), userId, sessions[..i], messages)
      invariant syncedMessages == MessageTotal(sessions[..i], messages)
    {
      var local := sessions[i];
      var count := ImportSession(db, userId, local, messages);
      assert sessions[..i + 1][..i] == sessions[..i];
      syncedMessages := syncedMessages + count;
      syncedSessions := syncedSessions + 1;
      i := i + 1;
    }
    FullPrefix(sessions);
    r := Ok(SyncCounts(syncedSessions, syncedMessages));
  }
}
