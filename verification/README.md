# DocX Legal AI — a Dafny model of the document service's core

DocX Legal AI is a web service that takes legal documents and rewrites them
in plain language. An outside language model does the rewriting. When that
call fails, a table of jargon replacements is used instead. The service
answers questions about a document with excerpts that mention the
question's words. It keeps documents and chat sessions in SQLite.

This project models the deterministic core of `main.py` over `seq<char>`
and immutable maps:

- the Python string operations the core is built from (`split()`,
  `split('.')`, `" ".join`, `strip()`, `lower()`, `in`/`find`, `s[:n]`), in
  module `PyStr`;
- `str.replace` with its leftmost, non-overlapping scan (`Replace`);
- the simplification prompt and its language and complexity tables, the
  rule-based fallback and the choice between the two (`Simplifier`);
- the relevant-excerpt heuristic (`Excerpts`) and the word chunker
  (`Chunker`);
- the question-answering prompt and answer (`Answering`);
- the clause and word metrics and the completed and error records of
  background processing (`Records`);
- the `documents` and `chat_sessions` tables as maps with the effect of each
  SQL statement, and the newest-first listing (`Store`);
- upload validation with POSIX `os.path.splitext` (`Upload`);
- the `/simplify` response, background processing with database faults,
  and the document read and delete endpoints (`Api`).

The outside model call is a parameter: `ModelOutcome` is either
`Reply(content)` or `Failed(message)`. Clock readings and database faults
are parameters too.

## Model

| member | source | states |
|---|---|---|
| PyStr.Words | main.py:229 | every token `split()` returns is non-empty and free of whitespace (Python's full `isspace` set) |
| PyStr.WordsOfJoin | main.py:233 | `" ".join(words).split()` gives back exactly `words`, for any list of tokens |
| PyStr.AllSpaceHasNoWords | main.py:309 | `split()` returns no tokens exactly when the string is empty or all whitespace |
| PyStr.SplitOn | main.py:310 | `s.split('.')` always has at least one piece, and no piece contains a dot |
| PyStr.SplitOnCount | main.py:310 | `s.split('.')` has one more piece than `s` has dots |
| PyStr.JoinOfSplitOn | main.py:310 | `'.'.join(s.split('.')) == s`: splitting loses nothing |
| PyStr.SplitOnLength | main.py:513 | the pieces of `s.split('.')` and the dots together account for every character of `s` |
| PyStr.Strip | main.py:315 | `strip()` is never longer than its input, is empty exactly for all-whitespace input, and neither starts nor ends with whitespace |
| PyStr.StripUnique | main.py:315 | stripping any whitespace padding around a core returns that core |
| PyStr.StripIdempotent | main.py:315 | stripping twice is stripping once |
| PyStr.LowerOfConcat | main.py:309 | lower-casing two texts laid end to end is lower-casing each and laying them end to end |
| PyStr.LowerIdempotent | main.py:309 | a lower-cased text is left unchanged by lower-casing it again |
| PyStr.LowerKeepsSpace | main.py:309 | lower-casing neither creates nor removes whitespace |
| PyStr.Find | main.py:314 | an index `find` reports is a place where the substring occurs |
| PyStr.FindIsLeftmost | main.py:314 | `find` reports the lowest such index, and nothing exactly when the substring occurs nowhere |
| Replace.ReplaceEmptyIsJoin | main.py:261 | `s.replace("", rep)` is `rep` for an empty `s`, and otherwise `rep + rep.join(list(s)) + rep`: the replacement before every character and at the end, the characters kept in order |
| Replace.ReplaceAll | main.py:261 | a replacement no longer than its non-empty pattern never lengthens the text, and one no shorter never shortens it |
| Replace.ReplaceAbsent | main.py:261 | `str.replace` leaves a text without the pattern unchanged |
| Replace.ReplaceAtLeftmost | main.py:261 | `str.replace` keeps the text before the leftmost occurrence, replaces it, and carries on after it, so replaced occurrences never overlap |
| Replace.ReplaceIntroducesReplacement | main.py:261 | when the pattern occurs, its replacement appears in the result |
| Replace.ReplaceWithItself | main.py:261 | replacing a pattern by itself changes nothing |
| Replace.ReplaceByFind | main.py:261 | the find-and-copy loop CPython runs computes the same result as the recursive definition |
| Simplifier.GetOr | main.py:196-198 | `.get(key, table[default])` yields the key's own entry when the table holds the key, and the default's entry otherwise |
| Simplifier.KnownSettingsArePrompted | main.py:183-198 | a language code the table holds puts its own framing in the prompt (`"hi"` the Hindi one), and a complexity tier the table holds its own register |
| Simplifier.UnknownLanguageIsEnglish | main.py:196 | a language code outside the table is prompted exactly as `"en"` |
| Simplifier.UnknownComplexityIsSimple | main.py:198 | a complexity tier outside the table is prompted exactly as `"simple"` |
| Simplifier.SimplifyPrompt | main.py:195-209 | `text[:4000]` appears whole in the simplification prompt |
| Simplifier.SimplifyPromptSeesOnlyExcerpt | main.py:208 | texts that agree on their first 4000 characters give the same prompt |
| Simplifier.RuleBasedSimplification | main.py:263 | the fallback's output always starts with `"Simplified version: "` |
| Simplifier.ApplyRules | main.py:259-261 | rules whose patterns do not occur leave the text unchanged |
| Simplifier.ApplyRulesInOrder | main.py:259-261 | the rules run in table order: a split table runs its first part to completion, then the second part on that output |
| Simplifier.FallbackWithoutJargon | main.py:238-263 | a text with none of the 14 patterns comes back as the marker followed by the text unchanged |
| Simplifier.SimplifyLegalText | main.py:211-225 | a reply is returned unchanged; a failed call returns text that starts with the fallback marker |
| Simplifier.FailedCallFallsBack | main.py:222-225 | a failed model call yields the marked rule-based text of the whole input |
| Simplifier.CapitalShallUntouched | main.py:252 | matching is case-sensitive: `"Shall"` is left as it is |
| Simplifier.HereinafterBeforeHerein | main.py:242-261 | `"hereinafter"` becomes `"from now on"` before the `"herein"` rule is reached, and no later rule touches it |
| Excerpts.KeptAtPositions | main.py:311-315 | the loop keeps exactly the items at the marked positions, in order |
| Excerpts.ExtractRelevantClauses | main.py:317 | at most 3 excerpts are returned |
| Excerpts.ExcerptsAreEarlyMatchingSentences | main.py:310-317 | the excerpts are the stripped forms of the first matching segments among the first 20, in document order, as many as there are up to 3 |
| Excerpts.MatchingIndicesAreMentions | main.py:313-314 | a segment among the first 20 is matched exactly when it mentions a question token |
| Excerpts.NoExcerptsIffNoMention | main.py:313-317 | there are no excerpts exactly when none of the first 20 segments mentions a question token |
| Excerpts.BlankQuestionNoExcerpts | main.py:309 | an empty or all-whitespace question yields no excerpts |
| Excerpts.StripKeepsWord | main.py:314-315 | a whitespace-free token found in a sentence is still found after `strip()` |
| Excerpts.ExcerptsMentionQuestion | main.py:314-315 | every excerpt, lower-cased, contains some token of the lower-cased question |
| Chunker.ChunkText | main.py:232 | a zero chunk size raises (as `range` does), a negative one gives no chunks |
| Chunker.ChunkWordsShape | main.py:232-233 | ceil(n/size) runs, all of `size` items but possibly the last, which laid end to end are the items |
| Chunker.ChunkTextCount | main.py:229-236 | for a positive size the number of chunks is ceil(n/size) for n words |
| Chunker.ChunkTextKeepsWords | main.py:229-236 | the words of chunk i are the i-th run of `chunk_size` words of `text.split()`, and the chunks' words laid end to end are `text.split()` |
| Chunker.ChunkTextSizes | main.py:229-236 | every chunk but the last has exactly `chunk_size` words, and every chunk has between one and `chunk_size` |
| Answering.AnswerPrompt | main.py:268-281 | the question prompt asks for the answer in the requested language (`"Answer in {language} language."`) |
| Answering.AnswerPromptEmbedsExcerpt | main.py:268-281 | `document_text[:3000]` appears whole in the question prompt |
| Answering.AnswerPromptEmbedsQuestion | main.py:269 | the question appears whole in the question prompt |
| Answering.AnswerPromptSeesOnlyExcerpt | main.py:272 | documents that agree on their first 3000 characters give the same prompt |
| Answering.AnswerQuestion | main.py:292-303 | an answer carries at most 3 excerpts |
| Answering.AnswerReflectsOutcome | main.py:292-303 | a reply is passed through with confidence 0.85; a failure becomes an apology quoting the error, with confidence 0.0 and no excerpts; confidence is positive exactly for a reply |
| Answering.ReplyExcerptsMentionQuestion | main.py:297 | the excerpts attached to a reply each mention a token of the question |
| Records.WordCount | main.py:514 | the word count is zero exactly for an empty or all-whitespace text |
| Records.ClauseCount | main.py:513 | there are at most as many clauses as dots plus one |
| Records.CountClauses | main.py:513 | the clause count of a list of segments is at most its length |
| Records.ClauseCountBounds | main.py:513 | `clause_count` is at most the number of dots plus one, and each clause uses more than 20 non-dot characters |
| Records.ShortTextHasNoClauses | main.py:513 | a text of at most 20 characters has no clauses |
| Records.WordCountOfJoin | main.py:514 | a text of tokens joined by single spaces has exactly that many words |
| Records.CompletedRecord | main.py:506-517 | the success record has status "completed", the given id, and a clause count bounded by the dots |
| Records.ErrorRecord | main.py:533-543 | the error record has status "error" and simplified text `"Error processing document: "` followed by the message |
| Records.CompletedAndErrorRecordsAgree | main.py:506-543 | both records agree on id, file name, text, language and word count (`len(text.split())`); the error one has 0 clauses and time 0 |
| Store.InsertDocument | main.py:325-346 | a plain INSERT fails exactly when the id is already a key; a successful one keeps every row stored under its own id |
| Store.InsertThenGet | main.py:329 | a fresh id can be read back as inserted, no other row changes, the table grows by one and stays keyed by id |
| Store.InsertDuplicateFails | main.py:103 | inserting an existing id fails with SQLite's primary-key error, whatever the new row holds |
| Store.GetDocument | main.py:351-352 | a lookup finds a row exactly when the id is a key |
| Store.DeleteDocument | main.py:391 | after a delete the id is gone, every other key stays, and every row is still stored under its own id |
| Store.DeleteThenGet | main.py:388-394 | after a delete the id reads as absent, every other id reads the same, and the table shrinks by one if the id was there |
| Store.DeleteIdempotent | main.py:391 | deleting twice is deleting once |
| Store.DeleteUndoesInsert | main.py:391 | deleting a row just inserted restores the table |
| Store.AtMostTotal | main.py:368 | any two upload times are comparable under the BINARY collation |
| Store.AtMostTransitive | main.py:368 | the collation order is transitive |
| Store.AtMostAntisymmetric | main.py:368 | the collation order is antisymmetric |
| Store.NewestFirstPairwise | main.py:368 | in a newest-first list every entry is at least as new as every later one |
| Store.InsertNewestFirst | main.py:368 | inserting one summary adds one entry, at the front or after the head |
| Store.InsertNewestFirstMembers | main.py:368 | insertion adds the new summary and nothing else |
| Store.InsertNewestFirstSorted | main.py:368 | insertion keeps a list newest first |
| Store.InsertNewestFirstDistinct | main.py:368 | inserting a summary with a new id keeps ids distinct |
| Store.ListDocuments | main.py:365-386 | the listing holds the summary of every row and nothing else, once per id, newest upload time first, with `total_count` equal to the number of rows |
| Store.SaveChatSession | main.py:396-405 | INSERT OR REPLACE always leaves the session id present and adds no other key |
| Store.GetChatSession | main.py:407-414 | a session lookup finds a row exactly when the id is a key |
| Store.SaveThenGet | main.py:398-402 | a saved session reads back as saved, with its two separate clock readings as creation and update time, whether or not the id existed; no other session changes |
| Store.LastSaveWins | main.py:398-402 | of two saves under one id the last wins, creation time included |
| Upload.RFind | main.py:457 | `rfind` reports a position holding the character with none after it, or nothing when it is absent |
| Upload.RFindLast | main.py:457 | the last occurrence of a character is the one `rfind` reports |
| Upload.Extension | main.py:457 | a non-empty extension starts with a dot and is a suffix of the name |
| Upload.ExtensionShape | main.py:457 | a non-empty extension has its only dot first and holds no `/` |
| Upload.ExtensionOfName | main.py:457 | `name.ext` has extension `.ext` when the name does not end in a dot or slash and `ext` holds neither |
| Upload.DotfileHasNoExtension | main.py:457 | a last path component of only dots before its final dot (`.pdf`) has no extension |
| Upload.ValidateUpload | main.py:454-459 | a missing or empty name is a 400 "No file provided"; every rejection is a 400; an accepted extension is a supported format |
| Upload.AcceptedExtensionIsSuffix | main.py:457-458 | what is accepted is the lower-cased tail of the file name, starting with a dot |
| Upload.AcceptsSupportedExtension | main.py:457-459 | `name.ext` is accepted exactly when `.ext` lower-cased is a supported format, whatever the case of its letters |
| Upload.RejectsNameWithoutDot | main.py:457-459 | a name with no dot is refused as an unsupported format |
| Upload.RejectsDotfile | main.py:457-459 | a hidden file such as `.pdf` is refused as an unsupported format |
| Api.Preview | main.py:559 | the preview is at most 503 characters |
| Api.PreviewIsTextIffShort | main.py:559 | a long text is cut to its first 500 characters plus `"..."`; the preview equals the text exactly when the text is at most 500 characters or is 503 characters already ending in `"..."` |
| Api.PreviewSeesOnlyPrefix | main.py:559 | long texts that agree on their first 500 characters have the same preview |
| Api.SimplifyEndpoint | main.py:547-568 | the response echoes language and complexity and counts the words of the original |
| Api.FallbackWordCount | main.py:564 | the fallback's marker adds exactly two words to the word count |
| Api.SimplifyEndpointOnFailure | main.py:552-564 | on a failed model call the response carries the rule-based text, and its word count is two more than that of the rewritten text |
| Api.SimplifyEndpointOnReply | main.py:552-564 | on a reply the response carries the reply and its word count, and echoes the preview of the original |
| Api.SaveDocument | main.py:325-346 | a save succeeds exactly when the database does not fail and the id is new, and then adds the row |
| Api.ProcessDocument | main.py:496-545 | after processing, the row exists exactly when the id was new and no exception escaped; an escaped exception leaves the table as it was; every row stays stored under its own id |
| Api.ProcessTouchesOnlyItsRow | main.py:496-545 | processing changes no row but its own |
| Api.ProcessStoresCompletedRecord | main.py:501-520 | a fresh id with no fault stores the completed record, with its simplification and metrics |
| Api.ProcessStoresErrorRecord | main.py:528-545 | a failed first save followed by a successful one stores the error record quoting the failure |
| Api.ProcessDuplicateIdEscapes | main.py:520-545 | an id already stored makes both inserts fail; the primary-key error escapes and the old row stays |
| Api.ViewMatchesRecord | main.py:355-359 | through `View` every field is the stored record's own |
| Api.ViewAsWrittenMisreadsStatus | main.py:355-359 | through `ViewAsWritten` the status is the simplified text, the simplified text is the original and the upload time is the language; its status agrees with `View` only when those two columns hold the same string |
| Api.CompletedRecordMisreported | main.py:355-359 | a completed document whose simplification is not the word "completed" is reported with another status as written |
| Api.GetDocumentEndpoint | main.py:614-622 | an absent id is a 404 "Document not found"; a present one is served under its own id, with either column read |
| Api.ProcessedDocumentServedAsWritten | main.py:614-622 | as written, a document just processed with a reply is served with the reply as its status, its original text as its simplification and its language as its upload time |
| Api.ProcessedDocumentIsServed | main.py:614-622 | with the corrected column read, a document just processed is served with its id, status "completed" and its simplification |
| Api.DeleteDocumentEndpoint | main.py:645-654 | an absent id is a 404 that leaves the table alone; afterwards the id is never present, and every row stays stored under its own id |
| Api.DeleteEndpointEffect | main.py:645-654 | a delete removes exactly one row and names the id in its message; the document then reads as 404, and a second delete is a 404 |

## Left out

- `py.py`: an HTML template and Flask routes serving random mock data; it has no deterministic logic.
- The outside language model (`openai.ChatCompletion.acreate`): its outcome is the `ModelOutcome` parameter. Its request parameters (model name, system messages, token limits, temperature) are not modelled.
- Text extraction from PDF, DOCX and images and the UTF-8 decode of uploads: these are outside libraries.
- SQLite I/O itself (connections, commits, `init_db`, the `users` table): the tables are maps and a database fault is an optional message passed in.
- `datetime.now()`, `uuid4()` and the `hash()`-based chat session id: times and ids are parameters.
- PyStr.Lower: maps only ASCII letters, one character to one. Python's `lower()` can lengthen a string (`'İ'.lower()` has two characters) and lowers a final `'Σ'` by its context. Non-ASCII case mapping is not modelled. For the extension check this gives the same verdict, because no supported format contains a character that a non-ASCII letter lowers to. For excerpts it can differ on non-ASCII text.
- `processing_time` and the statistics averages are floating point: the time is an opaque `real` parameter and `/stats` is not modelled.
- `os.path.splitext` follows the POSIX path rules (separator `/`); Windows path rules are not modelled.
- The rest of `upload_document` after validation (main.py:461-494) is not modelled. It calls `simplify_legal_text` and `save_document_to_db` without `await` (main.py:474, 484), so it stores nothing, and the coroutine object it gets back cannot be encoded in the response. `process_document_async` is never scheduled by any endpoint; `ProcessDocument` models what it would do if run.
- Store.ListDocuments: models the query as intended. As written, `get_all_documents_from_db` calls `cursor.fetchall()` without `await` (main.py:369) and so fails when iterating the rows. `list_documents` and `get_statistics` then iterate the returned dictionary as if it were the list (main.py:628-643, 672-695); those endpoints are not modelled.
- The chat endpoint (main.py:570-612) is not modelled. It reads `doc_data["original_text"]`, which `get_document_from_db` never returns (main.py:581), so every chat on an existing document fails. Its 404 for a missing document is raised inside the `try` and turned into a 500 (main.py:580, 610-612). The chat store functions it calls are modelled in `Store`.
- The 500 branch of `/simplify` (main.py:566-568) cannot be reached: `simplify_legal_text` catches every failure of the model call, and the rest of the handler does not raise.
- Temp-file removal after a successful save (main.py:523-524) is not modelled. If removal raised, the error record's insert would hit the id just stored.
- `MAX_FILE_SIZE` (main.py:53) is never used by the source.
- JSON encoding of responses, FastAPI routing, CORS, the static mount and logging.
- Chunker.ChunkTextCount: states ceil(n/size) as the pair of bounds `n <= c*size` and `(c-1)*size < n`, which determine it, rather than through division.
- Api.GetDocumentEndpoint: takes the column read as a parameter; the source makes only the as-written read.
- Api.ProcessedDocumentIsServed: states what the endpoint serves with the corrected column read. The source serves the as-written read, which `Api.ProcessedDocumentServedAsWritten` states.
- Answering.AnswerQuestion: the prompt is computed but the model's reply is a parameter, so nothing links the reply's content to the prompt.

## Findings

| source | as written | input that shows it | evidently intended | confidence | as-written member | corrected member |
|---|---|---|---|---|---|---|
| main.py:355-359 | `get_document_from_db` reads `simplified_text`, `status` and `upload_time` from columns 2, 3 and 4 of `SELECT *`, which hold `original_text`, `simplified_text` and `language` | any completed document whose simplification is not the word "completed": its status is reported as its simplified text | read columns 3, 8 and 9, as the keys name them | high; not executed | Api.ViewAsWritten; Api.CompletedRecordMisreported; Api.ProcessedDocumentServedAsWritten | Api.View; Api.ViewMatchesRecord; Api.ProcessedDocumentIsServed |
