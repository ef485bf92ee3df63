/** `AIService._chunk_text`: a text cut into runs of a fixed number of
    whitespace-separated words, each run re-joined with single spaces. */
module Chunker {
  import opened Wrappers
  import opened PyStr

  /** What `_chunk_text` can raise: `range(0, n, 0)` rejects a zero step. */
  datatype ChunkError = ZeroStep

  /** `words[i:i+size]` for `i = start, start + size, ...` while `i < len(words)`. */
  function ChunkFrom<T>(words: seq<T>, size: nat, start: nat): (chunks: seq<seq<T>>)
    requires size > 0
    decreases |words| - start
  {
    if start >= |words| then []
    else
      var stop := if start + size <= |words| then start + size else |words|;
      [words[start..stop]] + ChunkFrom(words, size, start + size)
  }

  /** The runs of `size` consecutive words, the last possibly shorter. */
  function ChunkWords<T>(words: seq<T>, size: nat): seq<seq<T>>
    requires size > 0
  {
    ChunkFrom(words, size, 0)
  }

  /** `_chunk_text(text, chunk_size)`. A zero size makes `range` raise; a
      negative size gives an empty range and so no chunks. */
  function ChunkText(text: string, chunkSize: int): (r: Result<seq<string>, ChunkError>)
    ensures r.Failure? <==> chunkSize == 0
    ensures chunkSize < 0 ==> r == Success([])
  {
    if chunkSize == 0 then Failure(ZeroStep)
    else if chunkSize < 0 then Success([])
    else
      var chunks := ChunkWords(Words(text), chunkSize);
      Success(seq(|chunks|, i requires 0 <= i < |chunks| => Join(" ", chunks[i])))
  }

  /** Chunks from `start` on: the fewest runs of `size` that cover the
      items from `start` on, that is ceil((n - start) / size) of them. */
  lemma {:induction false} ChunkFromCount<T>(words: seq<T>, size: nat, start: nat)
    requires size > 0 && start <= |words|
    ensures |words| - start <= |ChunkFrom(words, size, start)| * size
    ensures |ChunkFrom(words, size, start)| == 0 || (|ChunkFrom(words, size, start)| - 1) * size < |words| - start
    decreases |words| - start
  {
    if start < |words| {
      var c := |ChunkFrom(words, size, start)|;
      if start + size <= |words| {
        ChunkFromCount(words, size, start + size);
        assert c * size == size + (c - 1) * size;
        if c - 1 > 0 {
          assert (c - 1) * size == size + (c - 2) * size;
        }
      } else {
        assert ChunkFrom(words, size, start + size) == [];
      }
    }
  }

  /** Every chunk from `start` on holds between one and `size` items, and
      all but the last exactly `size`. */
  lemma {:induction false} ChunkFromSizes<T>(words: seq<T>, size: nat, start: nat)
    requires size > 0
    ensures forall i :: 0 <= i < |ChunkFrom(words, size, start)| - 1 ==> |ChunkFrom(words, size, start)[i]| == size
    ensures forall i :: 0 <= i < |ChunkFrom(words, size, start)| ==> 0 < |ChunkFrom(words, size, start)[i]| <= size
    decreases |words| - start
  {
    if start < |words| {
      ChunkFromSizes(words, size, start + size);
      if start + size > |words| {
        assert ChunkFrom(words, size, start + size) == [];
      }
    }
  }

  /** The chunks from `start` on, laid end to end, are the items from
      `start` on. */
  lemma {:induction false} ChunkFromFlatten<T>(words: seq<T>, size: nat, start: nat)
    requires size > 0 && start <= |words|
    ensures Concat(ChunkFrom(words, size, start)) == words[start..]
    decreases |words| - start
  {
    if start < |words| {
      var stop := if start + size <= |words| then start + size else |words|;
      var rest := ChunkFrom(words, size, start + size);
      if start + size <= |words| {
        ChunkFromFlatten(words, size, start + size);
      } else {
        assert rest == [];
      }
      assert Concat(ChunkFrom(words, size, start)) == words[start..stop] + Concat(rest);
      assert Concat(rest) == words[stop..];
      assert words[start..] == words[start..stop] + words[stop..];
    }
  }

  /** For a positive size: ceil(n / size) chunks (the fewest runs of `size`
      that cover the n words), all full but the last, and
      the chunks laid end to end are the words themselves. */
  lemma ChunkWordsShape<T>(words: seq<T>, size: nat)
    requires size > 0
    ensures |words| <= |ChunkWords(words, size)| * size
    ensures |ChunkWords(words, size)| == 0 || (|ChunkWords(words, size)| - 1) * size < |words|
    ensures forall i :: 0 <= i < |ChunkWords(words, size)| - 1 ==> |ChunkWords(words, size)[i]| == size
    ensures forall i :: 0 <= i < |ChunkWords(words, size)| ==> 0 < |ChunkWords(words, size)[i]| <= size
    ensures Concat(ChunkWords(words, size)) == words
  {
    ChunkFromCount(words, size, 0);
    ChunkFromSizes(words, size, 0);
    ChunkFromFlatten(words, size, 0);
    assert words[0..] == words;
  }

  /** Every chunk of words is a sequence of words. */
  lemma ChunksHoldWords(words: seq<string>, size: nat)
    requires size > 0
    requires forall i :: 0 <= i < |words| ==> IsWord(words[i])
    ensures forall i :: 0 <= i < |ChunkWords(words, size)| ==>
      forall j :: 0 <= j < |ChunkWords(words, size)[i]| ==> IsWord(ChunkWords(words, size)[i][j])
  {
    ChunkFromWords(words, size, 0);
  }

  lemma {:induction false} ChunkFromWords(words: seq<string>, size: nat, start: nat)
    requires size > 0
    requires forall i :: 0 <= i < |words| ==> IsWord(words[i])
    ensures forall i :: 0 <= i < |ChunkFrom(words, size, start)| ==>
      forall j :: 0 <= j < |ChunkFrom(words, size, start)[i]| ==> IsWord(ChunkFrom(words, size, start)[i][j])
    decreases |words| - start
  {
    if start < |words| {
      ChunkFromWords(words, size, start + size);
    }
  }

  /** The words of chunk i are run i of the text's words, and the words of
      each chunk, laid end to end, are the words of the text: chunking
      loses, duplicates and reorders nothing. */
  lemma ChunkTextKeepsWords(text: string, chunkSize: int)
    requires chunkSize > 0
    ensures ChunkText(text, chunkSize).Success?
    ensures var chunks := ChunkText(text, chunkSize).value;
      && |chunks| == |ChunkWords(Words(text), chunkSize)|
      && (forall i :: 0 <= i < |chunks| ==> Words(chunks[i]) == ChunkWords(Words(text), chunkSize)[i])
      && Concat(seq(|chunks|, i requires 0 <= i < |chunks| => Words(chunks[i]))) == Words(text)
  {
    var words := Words(text);
    var wc := ChunkWords(words, chunkSize);
    var chunks := ChunkText(text, chunkSize).value;
    ChunkWordsShape(words, chunkSize);
    ChunksHoldWords(words, chunkSize);
    var split := seq(|chunks|, i requires 0 <= i < |chunks| => Words(chunks[i]));
    forall i | 0 <= i < |chunks|
      ensures split[i] == wc[i]
    {
      WordsOfJoin(wc[i]);
    }
    assert split == wc;
  }

  /** For a positive size the number of chunks is ceil(n / size), where n
      is the number of words: enough runs of `chunkSize` to hold every word,
      and one fewer would not. */
  lemma ChunkTextCount(text: string, chunkSize: int)
    requires chunkSize > 0
    ensures ChunkText(text, chunkSize).Success?
    ensures |Words(text)| <= |ChunkText(text, chunkSize).value| * chunkSize
    ensures |ChunkText(text, chunkSize).value| == 0 || (|ChunkText(text, chunkSize).value| - 1) * chunkSize < |Words(text)|
  {
    ChunkWordsShape(Words(text), chunkSize);
  }

  /** Every chunk but the last holds exactly `chunk_size` words, and the
      last holds between one and `chunk_size`. */
  lemma ChunkTextSizes(text: string, chunkSize: int)
    requires chunkSize > 0
    ensures ChunkText(text, chunkSize).Success?
    ensures var chunks := ChunkText(text, chunkSize).value;
      && (forall i :: 0 <= i < |chunks| - 1 ==> |Words(chunks[i])| == chunkSize)
      && (forall i :: 0 <= i < |chunks| ==> 0 < |Words(chunks[i])| <= chunkSize)
  {
    ChunkTextKeepsWords(text, chunkSize);
    ChunkWordsShape(Words(text), chunkSize);
  }
}
