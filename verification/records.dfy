/** The metrics `process_document_async` computes for a document and the
    two records it can write: the completed one and the error one. */
module Records {
  import opened Wrappers
  import opened PyStr
  import opened Simplifier

  /** A row of the `documents` table (the `user_id` column is never
      written and is left out). */
  datatype DocumentRecord = DocumentRecord(
    id: string,
    filename: string,
    originalText: string,
    simplifiedText: string,
    language: string,
    processingTime: real,
    clauseCount: nat,
    wordCount: nat,
    status: string,
    uploadTime: string)

  const StatusCompleted: string := "completed"
  const StatusError: string := "error"

  /** A segment counts as a clause when its stripped form is longer than
      this many characters. */
  const ClauseMinLength: nat := 20

  /** `len(text.split())`: zero exactly for an empty or all-whitespace
      text. */
  function WordCount(text: string): (n: nat)
    ensures n == 0 <==> AllSpace(text)
  {
    AllSpaceHasNoWords(text);
    |Words(text)|
  }

  /** How many of `parts` are longer than `ClauseMinLength` once stripped. */
  function CountClauses(parts: seq<string>): (n: nat)
    ensures n <= |parts|
  {
    if parts == [] then 0
    else (if |Strip(parts[0])| > ClauseMinLength then 1 else 0) + CountClauses(parts[1..])
  }

  /** `len([s for s in text.split('.') if len(s.strip()) > 20])`. */
  function ClauseCount(text: string): (n: nat)
    ensures n <= CountChar(text, '.') + 1
  {
    SplitOnCount(text, '.');
    CountClauses(SplitOn(text, '.'))
  }

  /** Each counted clause takes more than 20 characters of the parts. */
  lemma {:induction false} CountClausesLength(parts: seq<string>)
    ensures CountClauses(parts) * (ClauseMinLength + 1) <= TotalLength(parts)
    decreases |parts|
  {
    if parts != [] {
      CountClausesLength(parts[1..]);
    }
  }

  /** There are at most as many clauses as `'.'`-segments, one more than
      the number of dots; and every clause uses up more than 20 of the
      characters that are not dots. */
  lemma ClauseCountBounds(text: string)
    ensures ClauseCount(text) <= CountChar(text, '.') + 1
    ensures ClauseCount(text) * (ClauseMinLength + 1) + CountChar(text, '.') <= |text|
  {
    SplitOnCount(text, '.');
    SplitOnLength(text, '.');
    CountClausesLength(SplitOn(text, '.'));
  }

  /** A text of at most 20 characters has no clauses. */
  lemma ShortTextHasNoClauses(text: string)
    requires |text| <= ClauseMinLength
    ensures ClauseCount(text) == 0
  {
    ClauseCountBounds(text);
  }

  /** Joining words with single spaces gives a text of exactly that many
      words. */
  lemma WordCountOfJoin(ws: seq<string>)
    requires forall i :: 0 <= i < |ws| ==> IsWord(ws[i])
    ensures WordCount(Join(" ", ws)) == |ws|
  {
    WordsOfJoin(ws);
  }

  /** The record written when processing succeeds: the simplification (the
      model's reply or the rule-based fallback), the measured time, the
      clause and word counts of the original, status "completed". */
  function CompletedRecord(id: string, filename: string, originalText: string, language: string, complexity: string,
                           outcome: ModelOutcome, processingTime: real, uploadTime: string): (d: DocumentRecord)
    ensures d.status == StatusCompleted && d.id == id
    ensures d.clauseCount <= CountChar(originalText, '.') + 1
  {
    ClauseCountBounds(originalText);
    DocumentRecord(id, filename, originalText, SimplifyLegalText(originalText, language, complexity, outcome),
                   language, processingTime, ClauseCount(originalText), WordCount(originalText),
                   StatusCompleted, uploadTime)
  }

  /** The text stored in place of a simplification when processing fails. */
  const ErrorLead: string := "Error processing document: "

  /** The record written when processing raised `message`: no time, no
      clauses, the word count of the original, status "error". */
  function ErrorRecord(id: string, filename: string, originalText: string, language: string,
                       message: string, uploadTime: string): (d: DocumentRecord)
    ensures d.status == StatusError && d.id == id
    ensures |ErrorLead| <= |d.simplifiedText| && d.simplifiedText[..|ErrorLead|] == ErrorLead
    ensures d.simplifiedText[|ErrorLead|..] == message
  {
    var text := ErrorLead + message;
    assert text[|ErrorLead|..] == message;
    DocumentRecord(id, filename, originalText, text, language, 0.0, 0, WordCount(originalText), StatusError, uploadTime)
  }

  /** The two records for the same upload agree on everything that does
      not depend on the simplification: id, file name, original text,
      language and word count; they differ in status. */
  lemma CompletedAndErrorRecordsAgree(id: string, filename: string, originalText: string, language: string,
                                      complexity: string, outcome: ModelOutcome, processingTime: real,
                                      message: string, t1: string, t2: string)
    ensures var c := CompletedRecord(id, filename, originalText, language, complexity, outcome, processingTime, t1);
      var e := ErrorRecord(id, filename, originalText, language, message, t2);
      && c.id == e.id && c.filename == e.filename && c.originalText == e.originalText
      && c.language == e.language && c.wordCount == e.wordCount == |Words(originalText)|
      && c.status != e.status
      && e.clauseCount == 0 && e.processingTime == 0.0
  {
  }
}
