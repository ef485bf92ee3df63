/** `AIService.answer_question`: the question-answering prompt and the
    answer assembled from the outside model's outcome. */
module Answering {
  import opened Wrappers
  import opened PyStr
  import opened Simplifier
  import opened Excerpts

  /** How many characters of the document reach the question prompt. */
  const AnswerExcerptLength: nat := 3000

  /** The fixed instructions that follow the document excerpt, ending with
      the requested answer language. */
  function AnswerPromptTail(language: string): string {
    AnswerInstructions + PromptLine(LanguageInstruction(language)) + "        "
  }

  /** The fixed lines between the document excerpt and the language line. */
  const AnswerInstructions: string :=
    PromptLine("")
    + PromptLine("Please provide:")
    + PromptLine("1. A clear, direct answer")
    + PromptLine("2. Reference to specific clauses if applicable")
    + PromptLine("3. Practical implications")
    + PromptLine("4. Any important warnings or considerations")
    + PromptLine("")

  /** The line asking for the answer language. */
  function LanguageInstruction(language: string): string {
    "Answer in " + language + " language."
  }

  /** The language slot of the question prompt: the content of the line
      that follows the fixed instructions appears in the prompt, whatever
      comes before the instructions and after the line. */
  lemma LanguageSlotInAnswerPrompt(before: string, instructions: string, languageLine: string, after: string)
    ensures Contains(before + (instructions + PromptLine(languageLine) + after), languageLine)
  {
    assert before + (instructions + PromptLine(languageLine) + after)
        == (before + instructions + "        ") + languageLine + ("\n" + after);
    ContainsMiddle(before + instructions + "        ", languageLine, "\n" + after);
  }

  /** The words that introduce the question. */
  const QuestionLead: string := "Based on the following legal document, please answer this question: "

  /** The heading between the question and the document excerpt. */
  const ContentHeading: string := PromptLine("") + PromptLine("Document content:") + "        "

  /** The user message of a question: the question, the first 3000
      characters of the document and the answer language. */
  function AnswerPrompt(question: string, documentText: string, language: string): (r: string)
    ensures Contains(r, LanguageInstruction(language))
  {
    var before := "\n" + PromptLine(QuestionLead + question)
      + ContentHeading + Take(documentText, AnswerExcerptLength) + "\n";
    LanguageSlotInAnswerPrompt(before, AnswerInstructions, LanguageInstruction(language), "        ");
    before + AnswerPromptTail(language)
  }

  /** The excerpt slot of the question prompt: the excerpt, between the
      head (question and heading) and the closing lines, appears in the
      prompt. */
  lemma ExcerptSlotInAnswerPrompt(head: string, excerpt: string, newline: string, tail: string)
    ensures Contains(((head + excerpt) + newline) + tail, excerpt)
  {
    assert ((head + excerpt) + newline) + tail == head + excerpt + (newline + tail);
    ContainsMiddle(head, excerpt, newline + tail);
  }

  /** The question slot of the question prompt: the question, at the end of
      the first line after the lead words, appears in the prompt whatever
      the heading, excerpt and closing lines that follow. */
  lemma QuestionSlotInAnswerPrompt(nl: string, indent: string, lead: string, question: string,
                                   heading: string, excerpt: string, newline: string, tail: string)
    ensures Contains(((((nl + ((indent + (lead + question)) + nl)) + heading) + excerpt) + newline) + tail, question)
  {
    var after := nl + heading + excerpt + newline + tail;
    assert ((((nl + ((indent + (lead + question)) + nl)) + heading) + excerpt) + newline) + tail
        == (nl + indent + lead) + question + after;
    ContainsMiddle(nl + indent + lead, question, after);
  }

  /** The first 3000 characters of the document appear in the prompt. */
  lemma AnswerPromptEmbedsExcerpt(question: string, documentText: string, language: string)
    ensures Contains(AnswerPrompt(question, documentText, language), Take(documentText, AnswerExcerptLength))
  {
    ExcerptSlotInAnswerPrompt("\n" + PromptLine(QuestionLead + question) + ContentHeading,
                 Take(documentText, AnswerExcerptLength), "\n", AnswerPromptTail(language));
  }

  /** The question appears in the prompt whole. */
  lemma AnswerPromptEmbedsQuestion(question: string, documentText: string, language: string)
    ensures Contains(AnswerPrompt(question, documentText, language), question)
  {
    QuestionSlotInAnswerPrompt("\n", "        ", QuestionLead, question, ContentHeading,
                  Take(documentText, AnswerExcerptLength), "\n", AnswerPromptTail(language));
  }

  /** Nothing past the first 3000 characters reaches the model: two
      documents that agree on their first 3000 characters give the same
      prompt. */
  lemma AnswerPromptSeesOnlyExcerpt(question: string, d1: string, d2: string, language: string)
    requires Take(d1, AnswerExcerptLength) == Take(d2, AnswerExcerptLength)
    ensures AnswerPrompt(question, d1, language) == AnswerPrompt(question, d2, language)
  {
  }

  /** The answer returned to the chat endpoint. */
  datatype Answer = Answer(response: string, confidence: real, relevantClauses: seq<string>)

  /** The confidence reported with a model reply. */
  const ReplyConfidence: real := 0.85

  /** The apology sent when the model call fails, around the exception's
      message. */
  function Apology(message: string): string {
    ApologyLead + message + ApologyTail
  }

  const ApologyLead: string := "I apologize, but I encountered an error processing your question: "
  const ApologyTail: string := ". Please try rephrasing your question or contact support."

  /** `answer_question(question, document_text, language)` given the model
      call's outcome. A reply is returned with confidence 0.85 and the
      excerpts of the whole document that mention the question; a failure
      becomes an apology with confidence 0 and no excerpts. */
  function AnswerQuestion(question: string, documentText: string, language: string, outcome: ModelOutcome): (a: Answer)
    ensures |a.relevantClauses| <= ExcerptLimit
  {
    match outcome
    case Reply(content) => Answer(content, ReplyConfidence, ExtractRelevantClauses(documentText, question))
    case Failed(message) => Answer(Apology(message), 0.0, [])
  }

  /** A reply is passed through with full confidence and supported by
      excerpts that each mention a word of the question; a failure is
      reported as an apology quoting the error, with zero confidence. */
  lemma AnswerReflectsOutcome(question: string, documentText: string, language: string, outcome: ModelOutcome)
    ensures var a := AnswerQuestion(question, documentText, language, outcome);
      && (outcome.Reply? ==> a.response == outcome.content && a.confidence == ReplyConfidence)
      && (outcome.Failed? ==>
            a.confidence == 0.0 && a.relevantClauses == [] && Contains(a.response, outcome.message))
      && (a.confidence > 0.0 <==> outcome.Reply?)
  {
    if outcome.Failed? {
      ContainsMiddle(ApologyLead, outcome.message, ApologyTail);
    }
  }

  /** The excerpts attached to a reply each mention a word of the
      question. */
  lemma ReplyExcerptsMentionQuestion(question: string, documentText: string, language: string, content: string)
    ensures forall k :: 0 <= k < |AnswerQuestion(question, documentText, language, Reply(content)).relevantClauses| ==>
      Mentions(AnswerQuestion(question, documentText, language, Reply(content)).relevantClauses[k], QuestionWords(question))
  {
    ExcerptsMentionQuestion(documentText, question);
  }
}
