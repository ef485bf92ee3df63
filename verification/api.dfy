/** The request handlers built on the pieces above: the `/simplify`
    response, the background processing of an uploaded document, and the
    document read and delete endpoints. */
module Api {
  import opened Wrappers
  import opened PyStr
  import opened Simplifier
  import opened Records
  import opened Store
  import opened Upload

  // ---------------------------------------------------------------------
  // POST /simplify

  /** How much of the original text the `/simplify` response echoes. */
  const PreviewLength: nat := 500
  const Ellipsis: string := "..."

  /** `text[:500] + "..." if len(text) > 500 else text`. */
  function Preview(text: string): (p: string)
    ensures |p| <= PreviewLength + |Ellipsis|
  {
    if |text| > PreviewLength then text[..PreviewLength] + Ellipsis else text
  }

  /** A longer text is cut to its first 500 characters and marked with an
      ellipsis, so the preview is the text itself exactly when the text is
      at most 500 characters or is 503 characters already ending in the
      ellipsis. */
  lemma PreviewIsTextIffShort(text: string)
    ensures Preview(text) == text <==>
      |text| <= PreviewLength || (|text| == PreviewLength + |Ellipsis| && text[PreviewLength..] == Ellipsis)
    ensures |text| > PreviewLength ==>
      && |Preview(text)| == PreviewLength + |Ellipsis|
      && Preview(text)[..PreviewLength] == text[..PreviewLength]
      && Preview(text)[PreviewLength..] == Ellipsis
  {
    if |text| > PreviewLength {
      assert |Preview(text)| == PreviewLength + |Ellipsis|;
      assert Preview(text)[PreviewLength..] == Ellipsis;
      if |text| == PreviewLength + |Ellipsis| && text[PreviewLength..] == Ellipsis {
        assert text == text[..PreviewLength] + text[PreviewLength..];
      }
    }
  }

  /** Long texts that agree on their first 500 characters have the same
      preview: nothing past the cut is echoed. */
  lemma PreviewSeesOnlyPrefix(t1: string, t2: string)
    requires |t1| > PreviewLength && |t2| > PreviewLength
    requires t1[..PreviewLength] == t2[..PreviewLength]
    ensures Preview(t1) == Preview(t2)
  {
  }

  /** The body of a `/simplify` response. */
  datatype SimplifyResponse = SimplifyResponse(
    originalText: string,
    simplifiedText: string,
    language: string,
    complexityLevel: string,
    wordCountOriginal: nat,
    wordCountSimplified: nat)

  /** `simplify_text(request)`, given the outside model's outcome. The
      simplification never raises (a failed call falls back to the rules),
      so the handler always answers with this body. */
  function SimplifyEndpoint(text: string, language: string, complexity: string, outcome: ModelOutcome): (r: SimplifyResponse)
    ensures r.language == language && r.complexityLevel == complexity
    ensures r.wordCountOriginal == |Words(text)|
  {
    var simplified := SimplifyLegalText(text, language, complexity, outcome);
    SimplifyResponse(Preview(text), simplified, language, complexity, WordCount(text), WordCount(simplified))
  }

  /** The two words of the fallback's marker come first in its word count. */
  lemma FallbackWordCount(rest: string)
    ensures WordCount(FallbackMarker + rest) == 2 + WordCount(rest)
  {
    var w1 := "Simplified";
    var w2 := "version:";
    assert IsWord(w1) && IsWord(w2);
    assert FallbackMarker + rest == w1 + (" " + (w2 + (" " + rest)));
    WordsAfterWord(w2, " " + rest);
    assert Words(" " + rest) == Words(rest);
    assert Words(" " + (w2 + (" " + rest))) == Words(w2 + (" " + rest));
    WordsAfterWord(w1, " " + (w2 + (" " + rest)));
  }

  /** When the model call fails, the response carries the rule-based
      simplification, whose word count is the marker's two words plus
      those of the rewritten text; the echoed original is the preview. */
  lemma SimplifyEndpointOnFailure(text: string, language: string, complexity: string, message: string)
    ensures var r := SimplifyEndpoint(text, language, complexity, Failed(message));
      && r.simplifiedText == FallbackMarker + ApplyRules(Replacements, text)
      && r.wordCountSimplified == 2 + |Words(ApplyRules(Replacements, text))|
      && r.originalText == Preview(text)
  {
    FallbackWordCount(ApplyRules(Replacements, text));
  }

  /** With a reply, the response carries the reply unchanged and counts
      its words; the echoed original is the preview. */
  lemma SimplifyEndpointOnReply(text: string, language: string, complexity: string, content: string)
    ensures var r := SimplifyEndpoint(text, language, complexity, Reply(content));
      && r.simplifiedText == content
      && r.wordCountSimplified == |Words(content)|
      && r.originalText == Preview(text)
  {
  }

  // ---------------------------------------------------------------------
  // Background processing

  /** `save_document_to_db(doc)`: the INSERT, unless the database fails
      first with `fault` (a locked or unwritable file, say). */
  function SaveDocument(store: DocumentStore, doc: DocumentRecord, fault: Option<string>): (r: Result<DocumentStore, string>)
    ensures r.Success? <==> fault.None? && doc.id !in store
    ensures r.Success? ==> r.value == store[doc.id := doc]
  {
    if fault.Some? then Failure(fault.value) else InsertDocument(store, doc)
  }

  /** The table after processing, and the exception that escaped the
      background task, if any. */
  datatype Processed = Processed(store: DocumentStore, escaped: Option<string>)

  /** `process_document_async`: simplify, then save the completed record;
      if that save raises, save an error record quoting the exception; if
      that save raises too, the exception escapes and nothing is stored.
      The two faults are the database's; the times are the clock's. */
  function ProcessDocument(store: DocumentStore, docId: string, filename: string, originalText: string,
                           language: string, complexity: string, outcome: ModelOutcome,
                           processingTime: real, uploadTime: string, errorTime: string,
                           saveFault: Option<string>, errorSaveFault: Option<string>): (p: Processed)
    ensures p.escaped.None? <==> docId in p.store && docId !in store
    ensures p.escaped.Some? ==> p.store == store
    ensures WellKeyed(store) ==> WellKeyed(p.store)
  {
    var done := CompletedRecord(docId, filename, originalText, language, complexity, outcome, processingTime, uploadTime);
    match SaveDocument(store, done, saveFault)
    case Success(s) => Processed(s, None)
    case Failure(e) =>
      var failed := ErrorRecord(docId, filename, originalText, language, e, errorTime);
      match SaveDocument(store, failed, errorSaveFault)
      case Success(s) => Processed(s, None)
      case Failure(e2) => Processed(store, Some(e2))
  }

  /** Processing touches no row but its own: every other id reads the
      same before and after. */
  lemma ProcessTouchesOnlyItsRow(store: DocumentStore, docId: string, filename: string, originalText: string,
                                 language: string, complexity: string, outcome: ModelOutcome,
                                 processingTime: real, uploadTime: string, errorTime: string,
                                 saveFault: Option<string>, errorSaveFault: Option<string>, other: string)
    requires other != docId
    ensures GetDocument(ProcessDocument(store, docId, filename, originalText, language, complexity, outcome,
                                        processingTime, uploadTime, errorTime, saveFault, errorSaveFault).store, other)
         == GetDocument(store, other)
  {
  }

  /** A fresh id with no database fault stores the completed record. */
  lemma ProcessStoresCompletedRecord(store: DocumentStore, docId: string, filename: string, originalText: string,
                                     language: string, complexity: string, outcome: ModelOutcome,
                                     processingTime: real, uploadTime: string, errorTime: string,
                                     errorSaveFault: Option<string>)
    requires docId !in store
    ensures var p := ProcessDocument(store, docId, filename, originalText, language, complexity, outcome,
                                     processingTime, uploadTime, errorTime, None, errorSaveFault);
      && p.escaped == None
      && p.store[docId].status == StatusCompleted
      && p.store[docId].simplifiedText == SimplifyLegalText(originalText, language, complexity, outcome)
      && p.store[docId].clauseCount == ClauseCount(originalText)
      && p.store[docId].wordCount == |Words(originalText)|
  {
  }

  /** A fresh id whose first save fails stores, when the second save
      succeeds, an error record quoting the first failure. */
  lemma ProcessStoresErrorRecord(store: DocumentStore, docId: string, filename: string, originalText: string,
                                 language: string, complexity: string, outcome: ModelOutcome,
                                 processingTime: real, uploadTime: string, errorTime: string, fault: string)
    requires docId !in store
    ensures var p := ProcessDocument(store, docId, filename, originalText, language, complexity, outcome,
                                     processingTime, uploadTime, errorTime, Some(fault), None);
      && p.escaped == None
      && p.store[docId] == ErrorRecord(docId, filename, originalText, language, fault, errorTime)
      && p.store[docId].status == StatusError
      && p.store[docId].simplifiedText == ErrorLead + fault
  {
    var r := ErrorRecord(docId, filename, originalText, language, fault, errorTime);
    assert r.simplifiedText == r.simplifiedText[..|ErrorLead|] + r.simplifiedText[|ErrorLead|..];
  }

  /** An id already in the table makes both inserts fail on the primary
      key: the second failure escapes and the existing row is kept. */
  lemma ProcessDuplicateIdEscapes(store: DocumentStore, docId: string, filename: string, originalText: string,
                                  language: string, complexity: string, outcome: ModelOutcome,
                                  processingTime: real, uploadTime: string, errorTime: string,
                                  saveFault: Option<string>)
    requires docId in store
    ensures ProcessDocument(store, docId, filename, originalText, language, complexity, outcome,
                            processingTime, uploadTime, errorTime, saveFault, None)
         == Processed(store, Some(UniqueViolation))
  {
  }

  // ---------------------------------------------------------------------
  // GET /document/{id}

  /** A column value of a `documents` row. */
  datatype Column = Text(text: string) | Real(number: real) | Integer(count: int) | Null

  /** The row `SELECT *` returns, in the table's column order; `user_id`
      is never written and reads as NULL. */
  function Row(d: DocumentRecord): (row: seq<Column>)
    ensures |row| == 11
  {
    [Text(d.id), Text(d.filename), Text(d.originalText), Text(d.simplifiedText), Text(d.language),
     Real(d.processingTime), Integer(d.clauseCount), Integer(d.wordCount), Text(d.status), Text(d.uploadTime), Null]
  }

  /** The dictionary `get_document_from_db` builds from a row. */
  datatype DocumentView = DocumentView(id: Column, filename: Column, simplifiedText: Column, status: Column, uploadTime: Column)

  /** The view as `get_document_from_db` builds it: columns 0 to 4, so the
      simplified text is read from `original_text`, the status from
      `simplified_text` and the upload time from `language`. */
  function ViewAsWritten(row: seq<Column>): (v: DocumentView)
    requires |row| == 11
    ensures v.id == row[0] && v.filename == row[1]
  {
    DocumentView(row[0], row[1], row[2], row[3], row[4])
  }

  /** The view read from the columns its keys name. */
  function View(row: seq<Column>): (v: DocumentView)
    requires |row| == 11
    ensures v.id == row[0] && v.filename == row[1]
  {
    DocumentView(row[0], row[1], row[3], row[8], row[9])
  }

  /** Read through `View`, every field is the record's own. */
  lemma ViewMatchesRecord(d: DocumentRecord)
    ensures View(Row(d)) == DocumentView(Text(d.id), Text(d.filename), Text(d.simplifiedText), Text(d.status), Text(d.uploadTime))
  {
  }

  /** Read through `ViewAsWritten`, the status reported is the document's
      simplified text, and the two views agree on it only when those two
      columns happen to hold the same string. */
  lemma ViewAsWrittenMisreadsStatus(d: DocumentRecord)
    ensures ViewAsWritten(Row(d)).status == Text(d.simplifiedText)
    ensures ViewAsWritten(Row(d)).simplifiedText == Text(d.originalText)
    ensures ViewAsWritten(Row(d)).uploadTime == Text(d.language)
    ensures ViewAsWritten(Row(d)).status == View(Row(d)).status <==> d.simplifiedText == d.status
  {
  }

  /** A completed record is reported with a status other than "completed"
      unless its simplification is literally that word. */
  lemma CompletedRecordMisreported(id: string, filename: string, originalText: string, language: string,
                                   complexity: string, content: string, processingTime: real, uploadTime: string)
    requires content != StatusCompleted
    ensures var d := CompletedRecord(id, filename, originalText, language, complexity, Reply(content), processingTime, uploadTime);
      && ViewAsWritten(Row(d)).status != Text(StatusCompleted)
      && View(Row(d)).status == Text(StatusCompleted)
  {
  }

  const NotFound: nat := 404
  const NotFoundDetail: string := "Document not found"

  /** Which column read `get_document_from_db` makes: the one at
      main.py:355-359, or the corrected one. */
  datatype ColumnRead = AsWritten | Corrected

  function ReadView(read: ColumnRead, row: seq<Column>): (v: DocumentView)
    requires |row| == 11
    ensures v.id == row[0] && v.filename == row[1]
  {
    match read
    case AsWritten => ViewAsWritten(row)
    case Corrected => View(row)
  }

  /** `get_document(doc_id)`: the stored document's view, read as `read`
      says, or a 404. */
  function GetDocumentEndpoint(store: DocumentStore, id: string, read: ColumnRead): (r: Result<DocumentView, HttpError>)
    ensures r.Failure? <==> id !in store
    ensures r.Failure? ==> r.error == HttpError(NotFound, NotFoundDetail)
    ensures r.Success? && WellKeyed(store) ==> r.value.id == Text(id)
  {
    match GetDocument(store, id)
    case None => Failure(HttpError(NotFound, NotFoundDetail))
    case Some(d) => Success(ReadView(read, Row(d)))
  }

  /** As written, a document just processed with a reply is served with
      the reply as its status and its original text as its simplification. */
  lemma ProcessedDocumentServedAsWritten(store: DocumentStore, docId: string, filename: string, originalText: string,
                                         language: string, complexity: string, content: string,
                                         processingTime: real, uploadTime: string)
    requires docId !in store
    ensures var p := ProcessDocument(store, docId, filename, originalText, language, complexity, Reply(content),
                                     processingTime, uploadTime, uploadTime, None, None);
      var v := GetDocumentEndpoint(p.store, docId, AsWritten);
      && v.Success?
      && v.value.status == Text(content)
      && v.value.simplifiedText == Text(originalText)
      && v.value.uploadTime == Text(language)
  {
    var done := CompletedRecord(docId, filename, originalText, language, complexity, Reply(content), processingTime, uploadTime);
    assert SaveDocument(store, done, None) == Success(store[docId := done]);
    ViewAsWrittenMisreadsStatus(done);
  }

  /** With the corrected column read, a document just processed is served
      with the id, status and simplification it was stored with. */
  lemma ProcessedDocumentIsServed(store: DocumentStore, docId: string, filename: string, originalText: string,
                                  language: string, complexity: string, outcome: ModelOutcome,
                                  processingTime: real, uploadTime: string)
    requires docId !in store
    ensures var p := ProcessDocument(store, docId, filename, originalText, language, complexity, outcome,
                                     processingTime, uploadTime, uploadTime, None, None);
      var v := GetDocumentEndpoint(p.store, docId, Corrected);
      && v.Success?
      && v.value.id == Text(docId)
      && v.value.status == Text(StatusCompleted)
      && v.value.simplifiedText == Text(SimplifyLegalText(originalText, language, complexity, outcome))
  {
    var done := CompletedRecord(docId, filename, originalText, language, complexity, outcome, processingTime, uploadTime);
    assert SaveDocument(store, done, None) == Success(store[docId := done]);
    ViewMatchesRecord(done);
  }

  // ---------------------------------------------------------------------
  // DELETE /document/{id}

  /** The success message of a delete. */
  function DeletedMessage(id: string): string {
    "Document " + id + " deleted successfully"
  }

  /** `delete_document(doc_id)`: a 404 when the id is absent, leaving the
      table alone; otherwise the row is deleted and a message names it. */
  function DeleteDocumentEndpoint(store: DocumentStore, id: string): (r: (DocumentStore, Result<string, HttpError>))
    ensures r.1.Failure? <==> id !in store
    ensures r.1.Failure? ==> r.0 == store && r.1.error == HttpError(NotFound, NotFoundDetail)
    ensures id !in r.0
    ensures WellKeyed(store) ==> WellKeyed(r.0)
  {
    match GetDocument(store, id)
    case None => (store, Failure(HttpError(NotFound, NotFoundDetail)))
    case Some(_) => (DeleteDocument(store, id), Success(DeletedMessage(id)))
  }

  /** A successful delete removes exactly one row, names the id in its
      message, and makes the document unreadable; a second delete of the
      same id is a 404. */
  lemma DeleteEndpointEffect(store: DocumentStore, id: string)
    requires id in store
    ensures var (s, r) := DeleteDocumentEndpoint(store, id);
      && r.Success? && Contains(r.value, id)
      && |s| == |store| - 1
      && (forall other :: other != id ==> GetDocument(s, other) == GetDocument(store, other))
      && (forall read :: GetDocumentEndpoint(s, id, read) == Failure(HttpError(NotFound, NotFoundDetail)))
      && DeleteDocumentEndpoint(s, id) == (s, Failure(HttpError(NotFound, NotFoundDetail)))
  {
    ContainsMiddle("Document ", id, " deleted successfully");
    DeleteThenGet(store, id);
  }
}
