/** `AIService.extract_relevant_clauses`: keyword matching of a question
    against the first sentences of a document, used to attach supporting
    excerpts to a chat answer. */
module Excerpts {
  import opened Wrappers
  import opened PyStr

  /** Only the first 20 `'.'`-segments of the text are examined. */
  const SentenceLimit: nat := 20

  /** At most 3 excerpts are returned. */
  const ExcerptLimit: nat := 3

  /** The question's tokens: `question.lower().split()`. */
  function QuestionWords(question: string): seq<string> {
    Words(Lower(question))
  }

  /** The segments examined: `text.split('.')[:20]`. */
  function Sentences(text: string): seq<string> {
    Take(SplitOn(text, '.'), SentenceLimit)
  }

  /** `any(word in sentence.lower() for word in question_words)`. */
  predicate Mentions(sentence: string, words: seq<string>) {
    exists i :: 0 <= i < |words| && Contains(Lower(sentence), words[i])
  }

  /** Which sentences mention a word, sentence by sentence. */
  function Hits(sentences: seq<string>, words: seq<string>): (hits: seq<bool>)
    ensures |hits| == |sentences|
  {
    seq(|sentences|, j requires 0 <= j < |sentences| => Mentions(sentences[j], words))
  }

  /** The items marked as hits, in order: the loop appends each marked item
      to what the items before it produced. */
  function Kept<T>(items: seq<T>, hits: seq<bool>): (r: seq<T>)
    requires |hits| == |items|
    ensures |r| <= |items|
  {
    if items == [] then []
    else
      var n := |items| - 1;
      Kept(items[..n], hits[..n]) + (if hits[n] then [items[n]] else [])
  }

  /** Each sentence stripped. */
  function StripEach(sentences: seq<string>): (r: seq<string>)
    ensures |r| == |sentences|
  {
    seq(|sentences|, j requires 0 <= j < |sentences| => Strip(sentences[j]))
  }

  /** `extract_relevant_clauses(text, question)`: the loop keeps each
      sentence that mentions a word, stripped, in the order met; the first
      three are returned. */
  function ExtractRelevantClauses(text: string, question: string): (r: seq<string>)
    ensures |r| <= ExcerptLimit
  {
    var sentences := Sentences(text);
    Take(Kept(StripEach(sentences), Hits(sentences, QuestionWords(question))), ExcerptLimit)
  }

  /** The positions marked in `hits`, in increasing order. */
  function Positions(hits: seq<bool>): (ix: seq<nat>)
    ensures forall k :: 0 <= k < |ix| ==> ix[k] < |hits|
  {
    if hits == [] then []
    else
      var n := |hits| - 1;
      Positions(hits[..n]) + (if hits[n] then [n] else [])
  }

  /** The positions are increasing and each of them is marked. */
  lemma {:induction false} PositionsSound(hits: seq<bool>)
    ensures forall k :: 0 <= k < |Positions(hits)| ==> hits[Positions(hits)[k]]
    ensures forall k, l :: 0 <= k < l < |Positions(hits)| ==> Positions(hits)[k] < Positions(hits)[l]
    decreases |hits|
  {
    if hits != [] {
      var n := |hits| - 1;
      PositionsSound(hits[..n]);
      var front := Positions(hits[..n]);
      var ix := Positions(hits);
      assert ix == front + (if hits[n] then [n] else []);
      forall k | 0 <= k < |front|
        ensures hits[front[k]]
      {
        assert hits[..n][front[k]];
      }
      assert forall k :: 0 <= k < |ix| ==> hits[ix[k]] by {
        forall k | 0 <= k < |ix|
          ensures hits[ix[k]]
        {
          if k < |front| {
            assert ix[k] == front[k];
          }
        }
      }
    }
  }

  /** No marked position is missing from `Positions`. */
  lemma {:induction false} PositionsComplete(hits: seq<bool>, j: nat)
    requires j < |hits| && hits[j]
    ensures j in Positions(hits)
    decreases |hits|
  {
    var n := |hits| - 1;
    if j != n {
      assert hits[..n][j] == hits[j];
      PositionsComplete(hits[..n], j);
    }
  }

  /** The kept items are exactly those at the marked positions, in the
      order of the positions. */
  lemma {:induction false} KeptAtPositions<T>(items: seq<T>, hits: seq<bool>)
    requires |hits| == |items|
    ensures |Kept(items, hits)| == |Positions(hits)|
    ensures forall k :: 0 <= k < |Kept(items, hits)| ==> Kept(items, hits)[k] == items[Positions(hits)[k]]
    decreases |items|
  {
    if items != [] {
      var n := |items| - 1;
      KeptAtPositions(items[..n], hits[..n]);
      var front := Positions(hits[..n]);
      var rf := Kept(items[..n], hits[..n]);
      forall k | 0 <= k < |rf|
        ensures rf[k] == items[front[k]]
      {
        assert items[..n][front[k]] == items[front[k]];
      }
    }
  }

  /** The positions, among the first 20 segments, of the sentences that
      mention a word of the question. */
  function MatchingIndices(text: string, question: string): seq<nat> {
    var sentences := Sentences(text);
    Positions(Hits(sentences, QuestionWords(question)))
  }

  /** The excerpts returned are, in document order, the stripped forms of
      the first matching sentences among the first 20 segments: as many as
      there are, up to three. */
  lemma ExcerptsAreEarlyMatchingSentences(text: string, question: string)
    ensures |ExtractRelevantClauses(text, question)|
         == if |MatchingIndices(text, question)| < ExcerptLimit then |MatchingIndices(text, question)| else ExcerptLimit
    ensures forall k :: 0 <= k < |ExtractRelevantClauses(text, question)| ==>
      && MatchingIndices(text, question)[k] < SentenceLimit
      && MatchingIndices(text, question)[k] < |SplitOn(text, '.')|
      && ExtractRelevantClauses(text, question)[k] == Strip(SplitOn(text, '.')[MatchingIndices(text, question)[k]])
    ensures forall k, l :: 0 <= k < l < |MatchingIndices(text, question)| ==>
      MatchingIndices(text, question)[k] < MatchingIndices(text, question)[l]
  {
    var sentences := Sentences(text);
    var hits := Hits(sentences, QuestionWords(question));
    KeptAtPositions(StripEach(sentences), hits);
    PositionsSound(hits);
  }

  /** The matching positions are exactly the sentences, among the first 20
      segments, that mention a word of the question. */
  lemma MatchingIndicesAreMentions(text: string, question: string)
    ensures forall k :: 0 <= k < |MatchingIndices(text, question)| ==>
      && MatchingIndices(text, question)[k] < |Sentences(text)|
      && Mentions(Sentences(text)[MatchingIndices(text, question)[k]], QuestionWords(question))
    ensures forall j :: 0 <= j < |Sentences(text)| && Mentions(Sentences(text)[j], QuestionWords(question)) ==>
      j in MatchingIndices(text, question)
  {
    var hits := Hits(Sentences(text), QuestionWords(question));
    PositionsSound(hits);
    forall j | 0 <= j < |Sentences(text)| && Mentions(Sentences(text)[j], QuestionWords(question))
      ensures j in MatchingIndices(text, question)
    {
      PositionsComplete(hits, j);
    }
  }

  /** There are no excerpts exactly when none of the first 20 segments
      mentions a word of the question. */
  lemma NoExcerptsIffNoMention(text: string, question: string)
    ensures ExtractRelevantClauses(text, question) == []
        <==> forall j :: 0 <= j < |Sentences(text)| ==> !Mentions(Sentences(text)[j], QuestionWords(question))
  {
    ExcerptsAreEarlyMatchingSentences(text, question);
    MatchingIndicesAreMentions(text, question);
    var ix := MatchingIndices(text, question);
    if ix != [] {
      assert Mentions(Sentences(text)[ix[0]], QuestionWords(question));
    }
  }

  /** An empty or all-whitespace question has no words, mentions nothing and
      yields no excerpts. */
  lemma BlankQuestionNoExcerpts(text: string, question: string)
    requires AllSpace(question)
    ensures ExtractRelevantClauses(text, question) == []
  {
    LowerKeepsSpace(question);
    AllSpaceHasNoWords(Lower(question));
    NoExcerptsIffNoMention(text, question);
  }

  /** `strip()` cuts a window out of `s` with only whitespace outside it. */
  lemma StripWindow(s: string) returns (a: nat, e: nat)
    ensures a <= e <= |s| && Strip(s) == s[a..e]
    ensures forall j :: 0 <= j < a ==> IsSpace(s[j])
    ensures forall j :: e <= j < |s| ==> IsSpace(s[j])
  {
    a := LeadingSpace(s);
    var t := s[a..];
    e := a + |t| - TrailingSpace(t);
    forall j | e <= j < |s|
      ensures IsSpace(s[j])
    {
      assert s[j] == t[j - a];
    }
  }

  lemma OccursInWindow(ls: string, w: string, i: nat, a: nat, e: nat)
    requires OccursAt(ls, w, i) && a <= i && i + |w| <= e <= |ls|
    ensures OccursAt(ls[a..e], w, i - a)
  {
    assert ls[a..e][i - a..][..|w|] == ls[i..][..|w|];
  }

  /** A whitespace-free word found in the lower-cased text lies inside any
      window with only whitespace outside it. */
  lemma WordInsideWindow(s: string, w: string, i: nat, a: nat, e: nat)
    requires IsWord(w) && OccursAt(Lower(s), w, i)
    requires a <= e <= |s|
    requires forall j :: 0 <= j < a ==> IsSpace(s[j])
    requires forall j :: e <= j < |s| ==> IsSpace(s[j])
    ensures a <= i && i + |w| <= e
  {
    var n := |w|;
    var ls := Lower(s);
    assert ls[i..][..n][0] == ls[i] && ls[i..][..n][n - 1] == ls[i + n - 1];
    assert !IsSpace(ls[i]) && !IsSpace(ls[i + n - 1]);
  }

  lemma LowerOfSlice(s: string, a: nat, e: nat)
    requires a <= e <= |s|
    ensures Lower(s[a..e]) == Lower(s)[a..e]
  {
  }

  /** Stripping removes only whitespace, so a whitespace-free word found in
      the lower-cased sentence is still found after stripping. */
  lemma StripKeepsWord(s: string, w: string)
    requires IsWord(w) && Contains(Lower(s), w)
    ensures Contains(Lower(Strip(s)), w)
  {
    var ls := Lower(s);
    var i := Find(ls, w).value;
    var a, e := StripWindow(s);
    WordInsideWindow(s, w, i, a, e);
    OccursInWindow(ls, w, i, a, e);
    LowerOfSlice(s, a, e);
    FindIsLeftmost(ls[a..e], w);
  }

  /** Every excerpt, lower-cased, contains some token of the lower-cased
      question. */
  lemma ExcerptsMentionQuestion(text: string, question: string)
    ensures forall k :: 0 <= k < |ExtractRelevantClauses(text, question)| ==>
      Mentions(ExtractRelevantClauses(text, question)[k], QuestionWords(question))
  {
    var r := ExtractRelevantClauses(text, question);
    var ws := QuestionWords(question);
    var sentences := Sentences(text);
    var hits := Hits(sentences, ws);
    var ix := Positions(hits);
    KeptAtPositions(StripEach(sentences), hits);
    PositionsSound(hits);
    forall k | 0 <= k < |r|
      ensures Mentions(r[k], ws)
    {
      var s := sentences[ix[k]];
      assert hits[ix[k]];
      var i :| 0 <= i < |ws| && Contains(Lower(s), ws[i]);
      StripKeepsWord(s, ws[i]);
      assert r[k] == Strip(s);
    }
  }
}
