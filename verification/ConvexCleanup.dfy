/** The scheduled cleanup of the backend: deleting everything a user owns,
    and deleting attachments older than seven days together with their ids
    in messages' attachment lists. Deleting a file from storage is outside
    the database; whether it fails is a parameter, and a failure is caught
    and ignored. */
module ConvexCleanup {
  import opened Wrappers
  import opened ConvexDb

  const SevenDaysMs := 7 * 24 * 60 * 60 * 1000

  // ---------------------------------------------------------------------
  // Deleting a user's data

  /** The ids of the user's sessions. */
  function UserSessionIds(sessions: map<nat, Session>, userId: string): set<nat> {
    set id | id in sessions && sessions[id].userId == userId
  }

  /** The `by_user` query of the sessions table, in id order. */
  function SessionsOf(sessions: map<nat, Session>, userId: string, n: nat): seq<Doc<Session>> {
    Ascending(sessions, (s: Session) => s.userId == userId, n)
  }

  /** The `by_user` query of the attachments table, in id order. */
  function AttachmentsOf(attachments: map<nat, Attachment>, userId: string, n: nat): seq<Doc<Attachment>> {
    Ascending(attachments, (a: Attachment) => a.userId == userId, n)
  }

  function SessionOwner(s: Session): string {
    s.userId
  }

  function AttachmentOwner(a: Attachment): string {
    a.userId
  }

  /** The entries of a table owned by users other than `userId`. */
  function NotOwnedBy<T>(m: map<nat, T>, owner: T -> string, userId: string): (r: map<nat, T>)
    ensures forall id :: id in r <==> id in m && owner(m[id]) != userId
    ensures forall id :: id in r ==> r[id] == m[id]
  {
    map id | id in m && owner(m[id]) != userId :: m[id]
  }

  /** With fresh ids the `by_user` query of the sessions lists every session
      of the user, so deleting what it lists leaves the other users'. */
  lemma SessionQueryComplete(m: map<nat, Session>, userId: string, n: nat)
    requires forall id :: id in m ==> id < n
    ensures IdSet(SessionsOf(m, userId, n)) == UserSessionIds(m, userId)
    ensures m - IdSet(SessionsOf(m, userId, n)) == NotOwnedBy(m, SessionOwner, userId)
  {
    MatchingAll(m, (s: Session) => s.userId == userId, n);
  }

  /** The same for the `by_user` query of the attachments. */
  lemma AttachmentQueryComplete(m: map<nat, Attachment>, userId: string, n: nat)
    requires forall id :: id in m ==> id < n
    ensures m - IdSet(AttachmentsOf(m, userId, n)) == NotOwnedBy(m, AttachmentOwner, userId)
  {
    MatchingAll(m, (a: Attachment) => a.userId == userId, n);
  }

  /** The messages that do not belong to a session in `gone`. */
  function OutsideSessions(messages: map<nat, Message>, gone: set<nat>): (r: map<nat, Message>)
    ensures forall id :: id in r <==> id in messages && messages[id].sessionId !in gone
    ensures forall id :: id in r ==> r[id] == messages[id]
  {
    map id | id in messages && messages[id].sessionId !in gone :: messages[id]
  }

  /** The `by_session` query of the messages table, in id order. */
  function MessagesOfSession(messages: map<nat, Message>, sessionId: nat, n: nat): seq<Doc<Message>> {
    Ascending(messages, (m: Message) => m.sessionId == sessionId, n)
  }

  /** Deleting what the `by_session` query of a session answers leaves
      the messages outside that session. */
  lemma SessionMessagesDeleted(m: map<nat, Message>, sessionId: nat, n: nat)
    requires forall id :: id in m ==> id < n
    ensures m - IdSet(MessagesOfSession(m, sessionId, n)) == OutsideSessions(m, {sessionId})
  {
    MatchingAll(m, (msg: Message) => msg.sessionId == sessionId, n);
  }

  /** The messages left after the messages of the first `i` listed sessions
      were deleted one session at a time. */
  function OutsideFirst(m: map<nat, Message>, sessions: seq<Doc<Session>>, i: nat): map<nat, Message>
    requires i <= |sessions|
  {
    if i == 0 then m else OutsideSessions(OutsideFirst(m, sessions, i - 1), {sessions[i - 1].id})
  }

  /** Deleting session by session is deleting the messages of all of them. */
  lemma {:induction false} OutsideFirstAll(m: map<nat, Message>, sessions: seq<Doc<Session>>, i: nat)
    requires i <= |sessions|
    ensures OutsideFirst(m, sessions, i) == OutsideSessions(m, IdSet(sessions[..i]))
  {
    if i == 0 {
      assert IdSet(sessions[..0]) == {};
    } else {
      OutsideFirstAll(m, sessions, i - 1);
      IdSetPrefix(sessions, i - 1);
      OutsideOneMore(m, IdSet(sessions[..i - 1]), sessions[i - 1].id);
    }
  }

  lemma OutsideOneMore(m: map<nat, Message>, gone: set<nat>, sessionId: nat)
    ensures OutsideSessions(OutsideSessions(m, gone), {sessionId}) == OutsideSessions(m, gone + {sessionId})
  {
  }

  datatype UserDeletion = UserDeletion(deletedSessions: nat, deletedMessages: nat, deletedAttachments: nat)

  /** One pass of the session loop of `deleteUserData`: the session's
      messages, as the `by_session` index lists them, then the session. */
  method DeleteSessionWithMessages(db: Database, sessionId: nat) returns (count: nat)
    requires db.Valid() && sessionId in db.sessions
    modifies db
    ensures db.Valid()
    ensures db.sessions == old(db.sessions) - {sessionId}
    ensures db.messages == OutsideSessions(old(db.messages), {sessionId})
    ensures count + |db.messages.Keys| == |old(db.messages).Keys|
    ensures unchanged(db`attachments, db`nextId)
  {
    var messages := MessagesOfSession(db.messages, sessionId, db.nextId);
    SessionMessagesDeleted(db.messages, sessionId, db.nextId);
    count := db.DeleteMessageDocs(messages);
    db.sessions := db.sessions - {sessionId};
  }

  /** The session part of `deleteUserData`: every session of the user and
      every message of those sessions is deleted, and the counts are the
      numbers of records removed. */
  method DeleteUserSessions(db: Database, userId: string) returns (deletedSessions: nat, deletedMessages: nat)
    requires db.Valid()
    modifies db
    ensures db.Valid()
    ensures db.sessions == NotOwnedBy(old(db.sessions), SessionOwner, userId)
    ensures db.messages == OutsideSessions(old(db.messages), UserSessionIds(old(db.sessions), userId))
    ensures unchanged(db`attachments, db`nextId)
    ensures deletedSessions == |old(db.sessions).Keys| - |db.sessions.Keys|
    ensures deletedMessages == |old(db.messages).Keys| - |db.messages.Keys|
  {
    var sessions := SessionsOf(db.sessions, userId, db.nextId);
    deletedSessions, deletedMessages := 0, 0;
    while deletedSessions < |sessions|
      invariant deletedSessions <= |sessions| && db.Valid()
      invariant db.sessions == DeletedFirst(old(db.sessions), sessions, deletedSessions)
      invariant db.messages == OutsideFirst(old(db.messages), sessions, deletedSessions)
      invariant deletedSessions + |db.sessions.Keys| == |old(db.sessions).Keys|
      invariant deletedMessages + |db.messages.Keys| == |old(db.messages).Keys|
      invariant unchanged(db`attachments, db`nextId)
    {
      DeletedFirstStep(old(db.sessions), sessions, deletedSessions);
      var count := DeleteSessionWithMessages(db, sessions[deletedSessions].id);
      deletedMessages := deletedMessages + count;
      deletedSessions := deletedSessions + 1;
    }
    DeletedFirstAll(old(db.sessions), sessions, deletedSessions);
    OutsideFirstAll(old(db.messages), sessions, deletedSessions);
    FullPrefix(sessions);
    SessionQueryComplete(old(db.sessions), userId, db.nextId);
  }

  /** The attachment part of `deleteUserData`: every attachment of the user
      is deleted from the table whether or not its file could be deleted,
      and the count is the number of records removed. */
  method DeleteUserAttachments(db: Database, userId: string) returns (deletedAttachments: nat)
    requires db.Valid()
    modifies db
    ensures db.Valid()
    ensures db.attachments == NotOwnedBy(old(db.attachments), AttachmentOwner, userId)
    ensures unchanged(db`sessions, db`messages, db`nextId)
    ensures deletedAttachments == |old(db.attachments).Keys| - |db.attachments.Keys|
  {
    var attachments := AttachmentsOf(db.attachments, userId, db.nextId);
    deletedAttachments := 0;
    while deletedAttachments < |attachments|
      invariant deletedAttachments <= |attachments| && db.Valid()
      invariant db.attachments == DeletedFirst(old(db.attachments), attachments, deletedAttachments)
      invariant deletedAttachments + |db.attachments.Keys| == |old(db.attachments).Keys|
      invariant unchanged(db`sessions, db`messages, db`nextId)
    {
      DeletedFirstStep(old(db.attachments), attachments, deletedAttachments);
      db.attachments := db.attachments - {attachments[deletedAttachments].id};
      deletedAttachments := deletedAttachments + 1;
    }
    DeletedFirstAll(old(db.attachments), attachments, deletedAttachments);
    FullPrefix(attachments);
    AttachmentQueryComplete(old(db.attachments), userId, db.nextId);
  }

  /** `deleteUserData`: the user's sessions, their messages and the user's
      attachments are gone, nothing else is, and each count is the number
      of records removed from its table. */
  method DeleteUserData(db: Database, userId: string) returns (r: UserDeletion)
    requires db.Valid()
    modifies db
    ensures db.Valid()
    ensures db.sessions == NotOwnedBy(old(db.sessions), SessionOwner, userId)
    ensures db.messages == OutsideSessions(old(db.messages), UserSessionIds(old(db.sessions), userId))
    ensures db.attachments == NotOwnedBy(old(db.attachments), AttachmentOwner, userId)
    ensures unchanged(db`nextId)
    ensures r.deletedSessions == |old(db.sessions).Keys| - |db.sessions.Keys|
    ensures r.deletedMessages == |old(db.messages).Keys| - |db.messages.Keys|
    ensures r.deletedAttachments == |old(db.attachments).Keys| - |db.attachments.Keys|
  {
    var sessions, messages := DeleteUserSessions(db, userId);
    var attachments := DeleteUserAttachments(db, userId);
    r := UserDeletion(sessions, messages, attachments);
  }

  /** After deleting a user's data no session of the user remains and no
      message of a deleted session remains, while every other session
      does. */
  lemma NothingOfUserRemains(before: Tables, after: Tables, userId: string)
    requires after.sessions == NotOwnedBy(before.sessions, SessionOwner, userId)
    requires after.messages == OutsideSessions(before.messages, UserSessionIds(before.sessions, userId))
    ensures forall id :: id in after.sessions ==> after.sessions[id].userId != userId
    ensures forall id :: id in after.messages ==> after.messages[id].sessionId !in UserSessionIds(before.sessions, userId)
    ensures forall id :: id in before.sessions && before.sessions[id].userId != userId ==> id in after.sessions
  {
  }

  // ---------------------------------------------------------------------
  // Expired attachments

  /** `ids.filter(id => !gone.has(id))`. */
  function Without(ids: seq<nat>, gone: set<nat>): (r: seq<nat>)
    ensures |r| <= |ids|
    ensures forall k :: 0 <= k < |r| ==> r[k] in ids && r[k] !in gone
    ensures forall k :: 0 <= k < |ids| && ids[k] !in gone ==> ids[k] in r
    ensures !Mentions(ids, gone) ==> r == ids
  {
    if ids == [] then []
    else if ids[0] in gone then Without(ids[1..], gone)
    else [ids[0]] + Without(ids[1..], gone)
  }

  /** Some id of the list is in `gone`. */
  predicate Mentions(ids: seq<nat>, gone: set<nat>) {
    exists k :: 0 <= k < |ids| && ids[k] in gone
  }

  /** Filtering twice is filtering by both sets. */
  lemma {:induction false} WithoutTwice(ids: seq<nat>, s: set<nat>, t: set<nat>)
    ensures Without(Without(ids, s), t) == Without(ids, s + t)
  {
    if ids != [] {
      WithoutTwice(ids[1..], s, t);
      if ids[0] !in s {
        assert Without(ids, s) == [ids[0]] + Without(ids[1..], s);
        assert ([ids[0]] + Without(ids[1..], s))[1..] == Without(ids[1..], s);
      }
    }
  }

  /** An attachment list after the ids in `gone` were removed from it: a
      list that mentions none of them is kept as it is; otherwise it is
      filtered and dropped when nothing is left. */
  function Prune(attachments: Option<seq<nat>>, gone: set<nat>): (r: Option<seq<nat>>)
    ensures r.Some? ==> r.value != [] || r == attachments
    ensures r.Some? ==> forall k :: 0 <= k < |r.value| ==> r.value[k] !in gone
  {
    match attachments
    case None => None
    case Some(ids) =>
      if !Mentions(ids, gone) then Some(ids)
      else
        var kept := Without(ids, gone);
        if kept == [] then None else Some(kept)
  }

  /** Removing one more id after a set is removing both at once. */
  lemma PruneStep(attachments: Option<seq<nat>>, gone: set<nat>, x: nat)
    ensures Prune(Prune(attachments, gone), {x}) == Prune(attachments, gone + {x})
  {
    if attachments.Some? {
      var ids := attachments.value;
      WithoutTwice(ids, gone, {x});
      var kept := Without(ids, gone);
      if !Mentions(ids, gone) {
        assert kept == ids;
      } else {
        assert Mentions(ids, gone + {x});
        if kept != [] && !Mentions(kept, {x}) {
          assert Without(kept, {x}) == kept;
        }
      }
    }
  }

  /** A message with the ids in `gone` removed from its attachments. */
  function Detached(m: Message, gone: set<nat>): Message {
    m.(attachments := Prune(m.attachments, gone))
  }

  /** Every message with the ids in `gone` removed from its attachments. */
  function DetachedAll(messages: map<nat, Message>, gone: set<nat>): (r: map<nat, Message>)
    ensures r.Keys == messages.Keys
    ensures forall id :: id in r ==> r[id] == Detached(messages[id], gone)
  {
    map id | id in messages :: Detached(messages[id], gone)
  }

  lemma DetachedAllStep(messages: map<nat, Message>, gone: set<nat>, x: nat)
    ensures DetachedAll(DetachedAll(messages, gone), {x}) == DetachedAll(messages, gone + {x})
  {
    forall id | id in messages
      ensures Detached(Detached(messages[id], gone), {x}) == Detached(messages[id], gone + {x})
    {
      PruneStep(messages[id].attachments, gone, x);
    }
  }

  lemma DetachedAllNothing(messages: map<nat, Message>)
    ensures DetachedAll(messages, {}) == messages
  {
    forall id | id in messages ensures Detached(messages[id], {}) == messages[id] {
      match messages[id].attachments
      case None =>
      case Some(ids) =>
        assert !Mentions(ids, {});
    }
  }

  /** The messages whose attachments are defined, in id order. */
  function WithAttachments(messages: map<nat, Message>, n: nat): seq<Doc<Message>> {
    Ascending(messages, (m: Message) => m.attachments.Some?, n)
  }

  /** A message with attachments after `x` was patched out of them: the
      list without `x`, or none when nothing is left. */
  function Patched(message: Message, x: nat): Message
    requires message.attachments.Some?
  {
    var updated := Without(message.attachments.value, {x});
    message.(attachments := if |updated| > 0 then Some(updated) else None)
  }

  /** The message map after the inner loop of `cleanupExpiredFiles` looked
      at the first `j` listed messages: each whose attachments include `x`
      is patched. */
  function PatchedFirst(m: map<nat, Message>, listed: seq<Doc<Message>>, j: nat, x: nat): map<nat, Message>
    requires j <= |listed|
  {
    if j == 0 then m
    else
      var before := PatchedFirst(m, listed, j - 1, x);
      var d := listed[j - 1];
      if d.value.attachments.Some? && x in d.value.attachments.value then before[d.id := Patched(d.value, x)]
      else before
  }

  /** The messages with the ids in `done` detached from `x`, the others
      as they are. */
  function DetachedIn(m: map<nat, Message>, done: set<nat>, x: nat): map<nat, Message> {
    map id | id in m :: if id in done then Detached(m[id], {x}) else m[id]
  }

  lemma DetachedInStep(m: map<nat, Message>, done: set<nat>, id: nat, x: nat)
    requires id in m && id !in done
    ensures DetachedIn(m, done + {id}, x) == DetachedIn(m, done, x)[id := Detached(m[id], {x})]
  {
  }

  /** Detaching `x` from one message with attachments: the list is kept
      when it does not hold `x`, otherwise filtered, or dropped when `x` was
      all it held. */
  lemma DetachOne(message: Message, x: nat)
    requires message.attachments.Some?
    ensures x !in message.attachments.value ==> Detached(message, {x}) == message
    ensures x in message.attachments.value ==> Detached(message, {x}) == Patched(message, x)
  {
    var ids := message.attachments.value;
    if x in ids {
      var k :| 0 <= k < |ids| && ids[k] == x;
      assert Mentions(ids, {x});
    }
  }

  /** Patching the first `j` messages of an increasing list of stored
      messages with attachments detaches exactly those. */
  lemma {:induction false} PatchedFirstIsDetached(m: map<nat, Message>, listed: seq<Doc<Message>>, j: nat, x: nat)
    requires j <= |listed| && Increasing(listed)
    requires forall k :: 0 <= k < |listed| ==> listed[k].id in m && m[listed[k].id] == listed[k].value
    requires forall k :: 0 <= k < |listed| ==> listed[k].value.attachments.Some?
    ensures PatchedFirst(m, listed, j, x) == DetachedIn(m, IdSet(listed[..j]), x)
  {
    if j == 0 {
      assert IdSet(listed[..0]) == {};
    } else {
      PatchedFirstIsDetached(m, listed, j - 1, x);
      IdSetPrefix(listed, j - 1);
      var id := listed[j - 1].id;
      var done := listed[..j - 1];
      assert id !in IdSet(done) by {
        forall k | 0 <= k < |done| ensures done[k].id != id {
          assert done[k] == listed[k];
        }
      }
      DetachedInStep(m, IdSet(listed[..j - 1]), id, x);
      DetachOne(listed[j - 1].value, x);
    }
  }

  /** Once every message with attachments is patched, all messages are
      detached, since the others have no attachments. */
  lemma PatchedAll(m: map<nat, Message>, n: nat, x: nat)
    requires forall id :: id in m ==> id < n
    ensures PatchedFirst(m, WithAttachments(m, n), |WithAttachments(m, n)|, x) == DetachedAll(m, {x})
  {
    var listed := WithAttachments(m, n);
    PatchedFirstIsDetached(m, listed, |listed|, x);
    FullPrefix(listed);
    forall id | id in m && id !in IdSet(listed) ensures Detached(m[id], {x}) == m[id] {
      assert id !in Matching(m, (msg: Message) => msg.attachments.Some?, n);
    }
  }

  /** Patches, one by one, every listed message whose attachments
      include `x`. */
  method PatchListed(db: Database, listed: seq<Doc<Message>>, x: nat)
    requires forall k :: 0 <= k < |listed| ==> listed[k].id in db.messages
    modifies db
    ensures db.messages.Keys == old(db.messages).Keys
    ensures db.messages == PatchedFirst(old(db.messages), listed, |listed|, x)
    ensures unchanged(db`sessions, db`attachments, db`nextId)
  {
    var j := 0;
    while j < |listed|
      invariant j <= |listed|
      invariant db.messages.Keys == old(db.messages).Keys
      invariant db.messages == PatchedFirst(old(db.messages), listed, j, x)
      invariant unchanged(db`sessions, db`attachments, db`nextId)
    {
      var d := listed[j];
      if d.value.attachments.Some? && x in d.value.attachments.value {
        db.messages := db.messages[d.id := Patched(d.value, x)];
      }
      j := j + 1;
    }
  }

  /** The inner loop of `cleanupExpiredFiles`: every message whose
      attachments include `x` gets them without `x`, or none when `x` was
      the last. */
  method DetachEverywhere(db: Database, x: nat)
    requires db.Valid()
    modifies db
    ensures db.Valid()
    ensures db.messages == DetachedAll(old(db.messages), {x})
    ensures unchanged(db`sessions, db`attachments, db`nextId)
  {
    var listed := WithAttachments(db.messages, db.nextId);
    PatchedAll(db.messages, db.nextId, x);
    PatchListed(db, listed, x);
  }

  /** One pass of the loop of `cleanupExpiredFiles`, apart from the file:
      the attachment's id leaves every message, then its record goes. */
  method ExpireAttachment(db: Database, id: nat)
    requires db.Valid()
    modifies db
    ensures db.Valid()
    ensures db.attachments == old(db.attachments) - {id}
    ensures db.messages == DetachedAll(old(db.messages), {id})
    ensures unchanged(db`sessions, db`nextId)
  {
    DetachEverywhere(db, id);
    db.attachments := db.attachments - {id};
  }

  /** The attachments created before `cutoff`. */
  predicate ExpiredBefore(a: Attachment, cutoff: int) {
    a.createdAt < cutoff
  }

  /** The ids of the attachments created before `cutoff`. */
  function ExpiredIds(attachments: map<nat, Attachment>, cutoff: int): set<nat> {
    set id | id in attachments && ExpiredBefore(attachments[id], cutoff)
  }

  /** The query of `cleanupExpiredFiles`: the attachments created before
      `cutoff`, in id order. */
  function Expired(attachments: map<nat, Attachment>, cutoff: int, n: nat): seq<Doc<Attachment>> {
    Ascending(attachments, (a: Attachment) => ExpiredBefore(a, cutoff), n)
  }

  /** The attachments created at or after `cutoff`. */
  function Unexpired(attachments: map<nat, Attachment>, cutoff: int): (r: map<nat, Attachment>)
    ensures forall id :: id in r <==> id in attachments && !ExpiredBefore(attachments[id], cutoff)
    ensures forall id :: id in r ==> r[id] == attachments[id]
  {
    map id | id in attachments && !ExpiredBefore(attachments[id], cutoff) :: attachments[id]
  }

  /** With fresh ids the query lists every expired attachment, so once
      all of them are done the table holds exactly the others. */
  lemma ExpiredComplete(m: map<nat, Attachment>, cutoff: int, n: nat)
    requires forall id :: id in m ==> id < n
    ensures IdSet(Expired(m, cutoff, n)) == ExpiredIds(m, cutoff)
    ensures m - IdSet(Expired(m, cutoff, n)) == Unexpired(m, cutoff)
  {
    MatchingAll(m, (a: Attachment) => ExpiredBefore(a, cutoff), n);
  }

  /** The messages after the ids of the first `i` listed attachments left
      them one attachment at a time. */
  function DetachedFirst(m: map<nat, Message>, docs: seq<Doc<Attachment>>, i: nat): map<nat, Message>
    requires i <= |docs|
  {
    if i == 0 then m else DetachedAll(DetachedFirst(m, docs, i - 1), {docs[i - 1].id})
  }

  /** Detaching one id after another is detaching all of them. */
  lemma {:induction false} DetachedFirstAll(m: map<nat, Message>, docs: seq<Doc<Attachment>>, i: nat)
    requires i <= |docs|
    ensures DetachedFirst(m, docs, i) == DetachedAll(m, IdSet(docs[..i]))
  {
    if i == 0 {
      assert IdSet(docs[..0]) == {};
      DetachedAllNothing(m);
    } else {
      var done, x := IdSet(docs[..i - 1]), docs[i - 1].id;
      calc {
        DetachedFirst(m, docs, i);
        DetachedAll(DetachedFirst(m, docs, i - 1), {x});
        { DetachedFirstAll(m, docs, i - 1); }
        DetachedAll(DetachedAll(m, done), {x});
        { DetachedAllStep(m, done, x); }
        DetachedAll(m, done + {x});
        { IdSetPrefix(docs, i - 1); }
        DetachedAll(m, IdSet(docs[..i]));
      }
    }
  }

  /** The bytes freed by the first `i` listed attachments: the sizes of
      those whose file was deleted from storage. */
  function FreedFirst(docs: seq<Doc<Attachment>>, i: nat, failing: set<string>): nat
    requires i <= |docs|
  {
    if i == 0 then 0
    else FreedFirst(docs, i - 1, failing) + (if docs[i - 1].value.storageId in failing then 0 else docs[i - 1].value.size)
  }

  /** The bytes freed by all listed attachments. */
  function FreedBytes(docs: seq<Doc<Attachment>>, failing: set<string>): nat {
    FreedFirst(docs, |docs|, failing)
  }

  /** The sizes of the first `i` listed attachments. */
  function TotalFirst(docs: seq<Doc<Attachment>>, i: nat): nat
    requires i <= |docs|
  {
    if i == 0 then 0 else TotalFirst(docs, i - 1) + docs[i - 1].value.size
  }

  /** The freed bytes never exceed the listed sizes, and reach them when no
      file deletion fails. */
  lemma {:induction false} FreedAtMostTotal(docs: seq<Doc<Attachment>>, i: nat, failing: set<string>)
    requires i <= |docs|
    ensures FreedFirst(docs, i, failing) <= TotalFirst(docs, i)
    ensures (forall k :: 0 <= k < i ==> docs[k].value.storageId !in failing) ==> FreedFirst(docs, i, failing) == TotalFirst(docs, i)
  {
    if i > 0 {
      FreedAtMostTotal(docs, i - 1, failing);
    }
  }

  datatype FileCleanup = FileCleanup(deletedFiles: nat, deletedBytes: nat)

  /** The loop of `cleanupExpiredFiles` over the listed attachments, where
      deleting the files in `failing` from storage throws: each attachment
      leaves the messages and the table, and the bytes of each file that
      was deleted are added up. */
  method ExpireListed(db: Database, expired: seq<Doc<Attachment>>, failing: set<string>)
    returns (deletedFiles: nat, deletedBytes: nat)
    requires db.Valid() && Increasing(expired)
    requires forall k :: 0 <= k < |expired| ==> expired[k].id in db.attachments
    modifies db
    ensures db.Valid()
    ensures db.attachments == old(db.attachments) - IdSet(expired)
    ensures db.messages == DetachedAll(old(db.messages), IdSet(expired))
    ensures deletedBytes == FreedBytes(expired, failing)
    ensures deletedFiles + |db.attachments.Keys| == |old(db.attachments).Keys|
    ensures unchanged(db`sessions, db`nextId)
  {
    deletedFiles, deletedBytes := 0, 0;
    while deletedFiles < |expired|
      invariant deletedFiles <= |expired| && db.Valid()
      invariant db.attachments == DeletedFirst(old(db.attachments), expired, deletedFiles)
      invariant db.messages == DetachedFirst(old(db.messages), expired, deletedFiles)
      invariant deletedBytes == FreedFirst(expired, deletedFiles, failing)
      invariant deletedFiles + |db.attachments.Keys| == |old(db.attachments).Keys|
      invariant unchanged(db`sessions, db`nextId)
    {
      var attachment := expired[deletedFiles];
      if attachment.value.storageId !in failing {
        deletedBytes := deletedBytes + attachment.value.size;
      }
      DeletedFirstStep(old(db.attachments), expired, deletedFiles);
      ExpireAttachment(db, attachment.id);
      deletedFiles := deletedFiles + 1;
    }
    DeletedFirstAll(old(db.attachments), expired, deletedFiles);
    DetachedFirstAll(old(db.messages), expired, deletedFiles);
    FullPrefix(expired);
  }

  /** `cleanupExpiredFiles` at time `now`, where deleting the files in
      `failing` from storage throws: every attachment older than seven days
      is deleted and no other, its id leaves every message's attachment list
      (a list left empty is dropped), `deletedFiles` counts them all and
      `deletedBytes` adds up the sizes of those whose file was deleted. */
  method CleanupExpiredFiles(db: Database, now: int, failing: set<string>) returns (r: FileCleanup)
    requires db.Valid()
    modifies db
    ensures db.Valid()
    ensures db.attachments == Unexpired(old(db.attachments), now - SevenDaysMs)
    ensures db.messages == DetachedAll(old(db.messages), ExpiredIds(old(db.attachments), now - SevenDaysMs))
    ensures r.deletedBytes == FreedBytes(Expired(old(db.attachments), now - SevenDaysMs, old(db.nextId)), failing)
    ensures r.deletedFiles == |old(db.attachments).Keys| - |db.attachments.Keys|
    ensures unchanged(db`sessions, db`nextId)
  {
    var cutoff := now - SevenDaysMs;
    var expired := Expired(db.attachments, cutoff, db.nextId);
    ExpiredComplete(db.attachments, cutoff, db.nextId);
    var deletedFiles, deletedBytes := ExpireListed(db, expired, failing);
    r := FileCleanup(deletedFiles, deletedBytes);
  }

  /** After the cleanup no message's attachment list holds a deleted id, and
      a list is left empty only if it was empty before. */
  lemma NoDanglingAttachments(messages: map<nat, Message>, gone: set<nat>)
    ensures forall id :: id in DetachedAll(messages, gone) && DetachedAll(messages, gone)[id].attachments.Some? ==>
      var ids := DetachedAll(messages, gone)[id].attachments.value;
      && (forall k :: 0 <= k < |ids| ==> ids[k] !in gone)
      && (ids == [] ==> messages[id].attachments == Some([]))
  {
  }
}
