/** The `documents` and `chat_sessions` tables as maps keyed by their
    primary keys, with the effect of each SQL statement the service issues
    on them. */
module Store {
  import opened Wrappers
  import opened Records

  /** The `documents` table: rows keyed by `id`, its PRIMARY KEY. */
  type DocumentStore = map<string, DocumentRecord>

  /** The message SQLite raises when an INSERT repeats a primary key. */
  const UniqueViolation: string := "UNIQUE constraint failed: documents.id"

  /** `save_document_to_db`: a plain INSERT, which fails on an id already
      present and then leaves the table as it was. */
  function InsertDocument(store: DocumentStore, doc: DocumentRecord): (r: Result<DocumentStore, string>)
    ensures r.Failure? <==> doc.id in store
    ensures r.Success? && WellKeyed(store) ==> WellKeyed(r.value)
  {
    if doc.id in store then Failure(UniqueViolation) else Success(store[doc.id := doc])
  }

  /** `SELECT * FROM documents WHERE id = ?`: the row, if any. */
  function GetDocument(store: DocumentStore, id: string): (r: Option<DocumentRecord>)
    ensures r.Some? <==> id in store
  {
    if id in store then Some(store[id]) else None
  }

  /** `DELETE FROM documents WHERE id = ?`: no row with that id remains;
      deleting a missing id is no error. */
  function DeleteDocument(store: DocumentStore, id: string): (r: DocumentStore)
    ensures id !in r
    ensures r.Keys == store.Keys - {id}
    ensures WellKeyed(store) ==> WellKeyed(r)
  {
    store - {id}
  }

  /** Every row is stored under its own id. */
  predicate WellKeyed(store: DocumentStore) {
    forall id :: id in store ==> store[id].id == id
  }

  /** A fresh id is inserted and can be read back; no other row changes,
      and the table stays keyed by id. */
  lemma InsertThenGet(store: DocumentStore, doc: DocumentRecord)
    requires doc.id !in store
    ensures InsertDocument(store, doc).Success?
    ensures var s := InsertDocument(store, doc).value;
      && GetDocument(s, doc.id) == Some(doc)
      && (forall id :: id != doc.id ==> GetDocument(s, id) == GetDocument(store, id))
      && (WellKeyed(store) ==> WellKeyed(s))
      && |s| == |store| + 1
  {
  }

  /** Inserting a duplicate id fails with SQLite's primary-key message,
      whatever the new row holds. */
  lemma InsertDuplicateFails(store: DocumentStore, doc: DocumentRecord)
    requires doc.id in store
    ensures InsertDocument(store, doc) == Failure(UniqueViolation)
  {
  }

  /** After a delete the id is gone and every other row is as it was. */
  lemma DeleteThenGet(store: DocumentStore, id: string)
    ensures GetDocument(DeleteDocument(store, id), id) == None
    ensures forall other :: other != id ==> GetDocument(DeleteDocument(store, id), other) == GetDocument(store, other)
    ensures id in store ==> |DeleteDocument(store, id)| == |store| - 1
  {
  }

  /** Deleting twice is deleting once. */
  lemma DeleteIdempotent(store: DocumentStore, id: string)
    ensures DeleteDocument(DeleteDocument(store, id), id) == DeleteDocument(store, id)
  {
  }

  /** Deleting a row just inserted restores the table. */
  lemma DeleteUndoesInsert(store: DocumentStore, doc: DocumentRecord)
    requires doc.id !in store
    ensures DeleteDocument(InsertDocument(store, doc).value, doc.id) == store
  {
  }

  // ---------------------------------------------------------------------
  // Listing

  /** The columns `get_all_documents_from_db` selects. */
  datatype DocumentSummary = DocumentSummary(id: string, filename: string, status: string, uploadTime: string)

  function Summary(d: DocumentRecord): DocumentSummary {
    DocumentSummary(d.id, d.filename, d.status, d.uploadTime)
  }

  /** SQLite's BINARY collation on TEXT: byte order of the UTF-8 encoding,
      which is code point order, compared lexicographically. */
  predicate AtMost(a: string, b: string) {
    a == [] || (b != [] && (a[0] < b[0] || (a[0] == b[0] && AtMost(a[1..], b[1..]))))
  }

  lemma {:induction false} AtMostTotal(a: string, b: string)
    ensures AtMost(a, b) || AtMost(b, a)
    decreases |a|
  {
    if a != [] && b != [] && a[0] == b[0] {
      AtMostTotal(a[1..], b[1..]);
    }
  }

  lemma {:induction false} AtMostTransitive(a: string, b: string, c: string)
    requires AtMost(a, b) && AtMost(b, c)
    ensures AtMost(a, c)
    decreases |a|
  {
    if a != [] && b != [] && c != [] && a[0] == b[0] && b[0] == c[0] {
      AtMostTransitive(a[1..], b[1..], c[1..]);
    }
  }

  lemma {:induction false} AtMostAntisymmetric(a: string, b: string)
    requires AtMost(a, b) && AtMost(b, a)
    ensures a == b
    decreases |a|
  {
    if a != [] {
      AtMostAntisymmetric(a[1..], b[1..]);
      assert a == [a[0]] + a[1..] && b == [b[0]] + b[1..];
    }
  }

  /** `ORDER BY upload_time DESC`: no summary is newer than the one before
      it. */
  predicate NewestFirst(docs: seq<DocumentSummary>) {
    forall i :: 0 < i < |docs| ==> AtMost(docs[i].uploadTime, docs[i - 1].uploadTime)
  }

  /** Newest first, pairwise: every summary is at least as new as every
      later one. */
  lemma {:induction false} NewestFirstPairwise(docs: seq<DocumentSummary>, i: nat, j: nat)
    requires NewestFirst(docs) && i <= j < |docs|
    ensures AtMost(docs[j].uploadTime, docs[i].uploadTime)
    decreases j - i
  {
    if i == j {
      AtMostReflexive(docs[i].uploadTime);
    } else {
      NewestFirstPairwise(docs, i, j - 1);
      AtMostTransitive(docs[j].uploadTime, docs[j - 1].uploadTime, docs[i].uploadTime);
    }
  }

  lemma {:induction false} AtMostReflexive(a: string)
    ensures AtMost(a, a)
    decreases |a|
  {
    if a != [] {
      AtMostReflexive(a[1..]);
    }
  }

  /** Places `x` before the first summary that is not newer than it. */
  function InsertNewestFirst(docs: seq<DocumentSummary>, x: DocumentSummary): (r: seq<DocumentSummary>)
    ensures |r| == |docs| + 1
    ensures r[0] == x || (docs != [] && r[0] == docs[0])
  {
    if docs == [] || AtMost(docs[0].uploadTime, x.uploadTime) then [x] + docs
    else [docs[0]] + InsertNewestFirst(docs[1..], x)
  }

  /** Inserting adds `x` and nothing else. */
  lemma {:induction false} InsertNewestFirstMembers(docs: seq<DocumentSummary>, x: DocumentSummary)
    ensures forall y :: y in InsertNewestFirst(docs, x) <==> y == x || y in docs
    decreases |docs|
  {
    if !(docs == [] || AtMost(docs[0].uploadTime, x.uploadTime)) {
      InsertNewestFirstMembers(docs[1..], x);
      assert docs == [docs[0]] + docs[1..];
    }
  }

  /** Inserting into a list that is newest first keeps it newest first. */
  lemma {:induction false} InsertNewestFirstSorted(docs: seq<DocumentSummary>, x: DocumentSummary)
    requires NewestFirst(docs)
    ensures NewestFirst(InsertNewestFirst(docs, x))
    decreases |docs|
  {
    if !(docs == [] || AtMost(docs[0].uploadTime, x.uploadTime)) {
      InsertNewestFirstSorted(docs[1..], x);
      AtMostTotal(docs[0].uploadTime, x.uploadTime);
    }
  }

  /** No two summaries share an id. */
  predicate DistinctIds(docs: seq<DocumentSummary>) {
    forall i, j :: 0 <= i < j < |docs| ==> docs[i].id != docs[j].id
  }

  /** Inserting a summary whose id is new keeps the ids distinct. */
  lemma {:induction false} InsertNewestFirstDistinct(docs: seq<DocumentSummary>, x: DocumentSummary)
    requires DistinctIds(docs)
    requires forall y :: y in docs ==> y.id != x.id
    ensures DistinctIds(InsertNewestFirst(docs, x))
    decreases |docs|
  {
    if !(docs == [] || AtMost(docs[0].uploadTime, x.uploadTime)) {
      InsertNewestFirstDistinct(docs[1..], x);
      var rest := InsertNewestFirst(docs[1..], x);
      InsertNewestFirstMembers(docs[1..], x);
      forall j | 0 <= j < |rest|
        ensures docs[0].id != rest[j].id
      {
        assert rest[j] in rest;
        if rest[j] != x {
          var k :| 0 <= k < |docs[1..]| && docs[1..][k] == rest[j];
          assert docs[k + 1] == rest[j];
        }
      }
    }
  }

  /** `get_all_documents_from_db`: every row's summary, newest first, and
      how many there are. Rows with equal upload times may come in any
      order, as SQLite leaves them. */
  method ListDocuments(store: DocumentStore) returns (docs: seq<DocumentSummary>, totalCount: nat)
    requires WellKeyed(store)
    ensures NewestFirst(docs)
    ensures totalCount == |docs| == |store|
    ensures forall y :: y in docs <==> y.id in store && y == Summary(store[y.id])
    ensures DistinctIds(docs)
  {
    docs := [];
    var left := store.Keys;
    while left != {}
      invariant left <= store.Keys
      invariant NewestFirst(docs) && DistinctIds(docs)
      invariant |docs| + |left| == |store|
      invariant forall y :: y in docs <==> y.id in store && y.id !in left && y == Summary(store[y.id])
      decreases |left|
    {
      var id :| id in left;
      var x := Summary(store[id]);
      InsertNewestFirstMembers(docs, x);
      InsertNewestFirstSorted(docs, x);
      InsertNewestFirstDistinct(docs, x);
      docs := InsertNewestFirst(docs, x);
      left := left - {id};
    }
    totalCount := |docs|;
  }

  // ---------------------------------------------------------------------
  // Chat sessions

  /** A row of `chat_sessions`. */
  datatype ChatSession = ChatSession(documentId: Option<string>, messages: string, createdAt: string, updatedAt: string)

  /** The `chat_sessions` table, keyed by `session_id`, its PRIMARY KEY. */
  type ChatStore = map<string, ChatSession>

  /** `save_chat_session`: INSERT OR REPLACE, so an existing session id is
      overwritten whole, its creation time included. The two times are two
      separate readings of the clock. */
  function SaveChatSession(chats: ChatStore, sessionId: string, documentId: Option<string>, messages: string,
                           createdAt: string, updatedAt: string): (r: ChatStore)
    ensures sessionId in r
    ensures r.Keys == chats.Keys + {sessionId}
  {
    chats[sessionId := ChatSession(documentId, messages, createdAt, updatedAt)]
  }

  /** `get_chat_session`: the row, if any. */
  function GetChatSession(chats: ChatStore, sessionId: string): (r: Option<ChatSession>)
    ensures r.Some? <==> sessionId in chats
  {
    if sessionId in chats then Some(chats[sessionId]) else None
  }

  /** A saved session reads back as saved, whether or not the id was taken,
      and no other session changes. */
  lemma SaveThenGet(chats: ChatStore, sessionId: string, documentId: Option<string>, messages: string,
                    createdAt: string, updatedAt: string)
    ensures GetChatSession(SaveChatSession(chats, sessionId, documentId, messages, createdAt, updatedAt), sessionId)
         == Some(ChatSession(documentId, messages, createdAt, updatedAt))
    ensures forall other :: other != sessionId ==>
      GetChatSession(SaveChatSession(chats, sessionId, documentId, messages, createdAt, updatedAt), other)
      == GetChatSession(chats, other)
  {
  }

  /** The last of two saves under one id wins: the first leaves no trace. */
  lemma LastSaveWins(chats: ChatStore, sessionId: string, d1: Option<string>, m1: string, c1: string, u1: string,
                     d2: Option<string>, m2: string, c2: string, u2: string)
    ensures SaveChatSession(SaveChatSession(chats, sessionId, d1, m1, c1, u1), sessionId, d2, m2, c2, u2)
         == SaveChatSession(chats, sessionId, d2, m2, c2, u2)
  {
  }
}
