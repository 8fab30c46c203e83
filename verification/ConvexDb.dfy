/** The backend's three tables (sessions, messages, attachments) and the
    database operations the handlers use: read by id, indexed queries in id
    order, insert with a fresh id, patch and delete. Ids of all tables come
    from one counter, so an id is never reused and ids grow with insertion
    order, which is the order queries return. */
module ConvexDb {
  import opened Wrappers
  import opened ChatTypes

  /** The authenticated caller. */
  datatype AuthUser = AuthUser(id: string, isAnonymous: bool)

  datatype Session = Session(userId: string, title: string, createdAt: int)

  datatype Message = Message(sessionId: nat, userId: string, role: Role, content: string,
                             toolInvocations: Option<string>, attachments: Option<seq<nat>>, createdAt: int)

  datatype Attachment = Attachment(storageId: string, userId: string, filename: string, contentType: string,
                                   size: nat, createdAt: int)

  /** A document as a query returns it: its id and its fields. */
  datatype Doc<T> = Doc(id: nat, value: T)

  /** The contents of the database at one moment. */
  datatype Tables = Tables(sessions: map<nat, Session>, messages: map<nat, Message>,
                           attachments: map<nat, Attachment>, nextId: nat)

  /** Every stored id was handed out before `nextId`. */
  ghost predicate Fresh(t: Tables) {
    && (forall id :: id in t.sessions ==> id < t.nextId)
    && (forall id :: id in t.messages ==> id < t.nextId)
    && (forall id :: id in t.attachments ==> id < t.nextId)
  }

  /** The ids of a list of documents. */
  function IdSet<T>(docs: seq<Doc<T>>): set<nat> {
    set k | 0 <= k < |docs| :: docs[k].id
  }

  lemma IdSetAppend<T>(docs: seq<Doc<T>>, d: Doc<T>)
    ensures IdSet(docs + [d]) == IdSet(docs) + {d.id}
  {
    var all := docs + [d];
    assert all[|docs|] == d;
    forall id | id in IdSet(docs) ensures id in IdSet(all) {
      var k :| 0 <= k < |docs| && docs[k].id == id;
      assert all[k] == docs[k];
    }
  }

  lemma IdSetPrefix<T>(docs: seq<Doc<T>>, n: nat)
    requires n < |docs|
    ensures IdSet(docs[..n + 1]) == IdSet(docs[..n]) + {docs[n].id}
  {
    assert docs[..n + 1] == docs[..n] + [docs[n]];
    IdSetAppend(docs[..n], docs[n]);
  }

  /** The whole of a sequence as its longest prefix. */
  lemma FullPrefix<T>(docs: seq<T>)
    ensures docs[..|docs|] == docs
  {
  }

  /** Ids in strictly increasing order. */
  ghost predicate Increasing<T>(docs: seq<Doc<T>>) {
    forall i, j :: 0 <= i < j < |docs| ==> docs[i].id < docs[j].id
  }

  /** The ids below `n` of the documents of `m` that `keep` selects. */
  function Matching<T>(m: map<nat, T>, keep: T -> bool, n: nat): set<nat> {
    set id | id in m && id < n && keep(m[id])
  }

  /** A query over `m` filtered by `keep`, in ascending id order: exactly the
      selected documents with an id below `n`, each as stored. */
  function Ascending<T(==)>(m: map<nat, T>, keep: T -> bool, n: nat): (r: seq<Doc<T>>)
    ensures forall k :: 0 <= k < |r| ==> r[k].id < n && r[k].id in m && r[k].value == m[r[k].id] && keep(r[k].value)
    ensures Increasing(r)
    ensures IdSet(r) == Matching(m, keep, n)
  {
    if n == 0 then []
    else
      var r := Ascending(m, keep, n - 1);
      if n - 1 in m && keep(m[n - 1]) then
        IdSetAppend(r, Doc(n - 1, m[n - 1]));
        assert Matching(m, keep, n) == Matching(m, keep, n - 1) + {n - 1};
        r + [Doc(n - 1, m[n - 1])]
      else
        assert Matching(m, keep, n) == Matching(m, keep, n - 1);
        r
  }

  /** The same query in descending id order. */
  function Descending<T(==)>(m: map<nat, T>, keep: T -> bool, n: nat): (r: seq<Doc<T>>)
    ensures forall k :: 0 <= k < |r| ==> r[k].id < n && r[k].id in m && r[k].value == m[r[k].id] && keep(r[k].value)
    ensures forall i, j :: 0 <= i < j < |r| ==> r[i].id > r[j].id
    ensures IdSet(r) == Matching(m, keep, n)
  {
    var a := Ascending(m, keep, n);
    var r := seq(|a|, k requires 0 <= k < |a| => a[|a| - 1 - k]);
    assert IdSet(r) == IdSet(a) by {
      forall id | id in IdSet(a) ensures id in IdSet(r) {
        var k :| 0 <= k < |a| && a[k].id == id;
        assert r[|a| - 1 - k] == a[k];
      }
    }
    r
  }

  /** `m` without the documents `gone` selects. */
  function Removed<T>(m: map<nat, T>, gone: T -> bool): (r: map<nat, T>)
    ensures forall id :: id in r <==> id in m && !gone(m[id])
    ensures forall id :: id in r ==> r[id] == m[id]
  {
    map id | id in m && !gone(m[id]) :: m[id]
  }

  /** With fresh ids, the query bound `nextId` selects every document. */
  lemma MatchingAll<T>(m: map<nat, T>, keep: T -> bool, n: nat)
    requires forall id :: id in m ==> id < n
    ensures m - Matching(m, keep, n) == Removed(m, keep)
  {
  }

  /** Removing documents a query does not select leaves its answer as it
      was. */
  lemma {:induction false} AscendingIgnoresRemoved<T>(m: map<nat, T>, gone: T -> bool, keep: T -> bool, n: nat)
    requires forall v :: keep(v) ==> !gone(v)
    ensures Ascending(Removed(m, gone), keep, n) == Ascending(m, keep, n)
  {
    if n > 0 {
      AscendingIgnoresRemoved(m, gone, keep, n - 1);
    }
  }

  /** A query that selects no stored document answers nothing. */
  lemma {:induction false} NoneSelected<T>(m: map<nat, T>, keep: T -> bool, n: nat)
    requires forall id :: id in m ==> !keep(m[id])
    ensures Ascending(m, keep, n) == []
  {
    if n > 0 {
      NoneSelected(m, keep, n - 1);
    }
  }

  /** A fresh insert, as the database does it. */
  function InsertSession(t: Tables, s: Session): Tables {
    t.(sessions := t.sessions[t.nextId := s], nextId := t.nextId + 1)
  }

  function InsertMessage(t: Tables, m: Message): Tables {
    t.(messages := t.messages[t.nextId := m], nextId := t.nextId + 1)
  }

  /** Inserting keeps every id below the counter. */
  lemma InsertKeepsFresh(t: Tables, s: Session, m: Message)
    requires Fresh(t)
    ensures Fresh(InsertSession(t, s)) && Fresh(InsertMessage(t, m))
  {
  }

  /** A fresh key adds one to the number of keys. */
  lemma KeysAfterInsert<T>(m: map<nat, T>, x: nat, v: T)
    requires x !in m
    ensures |m[x := v].Keys| == |m.Keys| + 1
  {
    assert m[x := v].Keys == m.Keys + {x};
  }

  lemma RemoveOneMore<T>(m0: map<nat, T>, gone: set<nat>, x: nat)
    ensures (m0 - gone) - {x} == m0 - (gone + {x})
  {
  }

  /** Removing a present key takes one from the number of keys. */
  lemma KeysAfterRemove<T>(m: map<nat, T>, x: nat)
    requires x in m
    ensures |(m - {x}).Keys| == |m.Keys| - 1
  {
    assert (m - {x}).Keys == m.Keys - {x};
  }

  /** `m` after deleting the first `i` listed documents one by one. */
  function DeletedFirst<T>(m: map<nat, T>, docs: seq<Doc<T>>, i: nat): map<nat, T>
    requires i <= |docs|
  {
    if i == 0 then m else DeletedFirst(m, docs, i - 1) - {docs[i - 1].id}
  }

  /** A document of an increasing list is still there until its turn. */
  lemma {:induction false} DeletedFirstKeeps<T>(m: map<nat, T>, docs: seq<Doc<T>>, i: nat, k: nat)
    requires i <= k < |docs| && Increasing(docs) && docs[k].id in m
    ensures docs[k].id in DeletedFirst(m, docs, i)
  {
    if i > 0 {
      DeletedFirstKeeps(m, docs, i - 1, k);
      assert docs[i - 1].id < docs[k].id;
    }
  }

  /** Each deletion of an increasing list of present documents removes one
      key. */
  lemma DeletedFirstStep<T>(m: map<nat, T>, docs: seq<Doc<T>>, i: nat)
    requires i < |docs| && Increasing(docs) && docs[i].id in m
    ensures docs[i].id in DeletedFirst(m, docs, i)
    ensures |DeletedFirst(m, docs, i + 1).Keys| + 1 == |DeletedFirst(m, docs, i).Keys|
  {
    DeletedFirstKeeps(m, docs, i, i);
    KeysAfterRemove(DeletedFirst(m, docs, i), docs[i].id);
  }

  /** Deleting the listed documents one by one deletes exactly their ids. */
  lemma {:induction false} DeletedFirstAll<T>(m: map<nat, T>, docs: seq<Doc<T>>, i: nat)
    requires i <= |docs|
    ensures DeletedFirst(m, docs, i) == m - IdSet(docs[..i])
  {
    if i == 0 {
      assert IdSet(docs[..0]) == {};
    } else {
      DeletedFirstAll(m, docs, i - 1);
      IdSetPrefix(docs, i - 1);
      RemoveOneMore(m, IdSet(docs[..i - 1]), docs[i - 1].id);
    }
  }

  /** The database: one map per table and the id counter. */
  class Database {
    var sessions: map<nat, Session>
    var messages: map<nat, Message>
    var attachments: map<nat, Attachment>
    var nextId: nat

    function Snapshot(): Tables
      reads this
    {
      Tables(sessions, messages, attachments, nextId)
    }

    ghost predicate Valid()
      reads this
    {
      Fresh(Snapshot())
    }

    constructor(initial: Tables)
      requires Fresh(initial)
      ensures Valid() && Snapshot() == initial
    {
      sessions := initial.sessions;
      messages := initial.messages;
      attachments := initial.attachments;
      nextId := initial.nextId;
    }

    method InsertSessionDoc(s: Session) returns (id: nat)
      requires Valid()
      modifies this
      ensures Valid()
      ensures id == old(nextId) && Snapshot() == InsertSession(old(Snapshot()), s)
    {
      InsertKeepsFresh(Snapshot(), s, Message(0, "", User, "", None, None, 0));
      id := nextId;
      sessions := sessions[id := s];
      nextId := nextId + 1;
    }

    method InsertMessageDoc(m: Message) returns (id: nat)
      requires Valid()
      modifies this
      ensures Valid()
      ensures id == old(nextId) && Snapshot() == InsertMessage(old(Snapshot()), m)
    {
      InsertKeepsFresh(Snapshot(), Session("", "", 0), m);
      id := nextId;
      messages := messages[id := m];
      nextId := nextId + 1;
    }

    /** Deletes the listed messages one by one; the count is the number of
      records removed. */
    method DeleteMessageDocs(docs: seq<Doc<Message>>) returns (count: nat)
      requires Valid()
      requires Increasing(docs) && forall k :: 0 <= k < |docs| ==> docs[k].id in messages
      modifies this
      ensures Valid()
      ensures messages == old(messages) - IdSet(docs)
      ensures count == |docs| && |messages.Keys| == |old(messages).Keys| - count
      ensures unchanged(this`sessions, this`attachments, this`nextId)
    {
      count := 0;
      while count < |docs|
        invariant count <= |docs| && Valid()
        invariant messages == DeletedFirst(old(messages), docs, count)
        invariant count + |messages.Keys| == |old(messages).Keys|
        invariant unchanged(this`sessions, this`attachments, this`nextId)
      {
        DeletedFirstStep(old(messages), docs, count);
        messages := messages - {docs[count].id};
        count := count + 1;
      }
      DeletedFirstAll(old(messages), docs, count);
      FullPrefix(docs);
    }
  }
}
