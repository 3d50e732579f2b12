/** `splitIntoChunks` (server/index.js): split captured text into sentences on
    runs of `.`, `!` and `?`, fill a buffer sentence by sentence up to the chunk
    size, and fall back to groups of space-separated words for a sentence that
    is longer than the chunk size on its own.

    The loop is specified by a fold over the sentences (`SentenceRun`) whose
    step mirrors one iteration of the source's loop; `SplitIntoChunks` is the
    imperative loop proved against it, and the lemmas state what the source
    promises of every chunk. */
module Chunker {
  import opened JsStrings

  /** Both callers use the default chunk size. */
  const DefaultChunkSize: nat := 1000

  predicate IsTerminator(c: char) {
    c == '.' || c == '!' || c == '?'
  }

  predicate NoTerminator(s: string) {
    forall k :: 0 <= k < |s| ==> !IsTerminator(s[k])
  }

  /** `text.split(/[.!?]+/)`: the pieces between maximal runs of terminators,
      with an empty piece before a leading run and after a trailing one. */
  function Sentences(s: string): (r: seq<string>)
    ensures |r| >= 1
    ensures forall i :: 0 <= i < |r| ==> NoTerminator(r[i])
  {
    if s == [] then
      [[]]
    else if IsTerminator(s[0]) then
      if |s| > 1 && IsTerminator(s[1]) then Sentences(s[1..]) else [[]] + Sentences(s[1..])
    else
      var rest := Sentences(s[1..]);
      [[s[0]] + rest[0]] + rest[1..]
  }

  /** The state of the chunking loop: the chunks pushed so far and the buffer
      being filled (`currentChunk`, or `currentWordChunk` in the word loop). */
  datatype Buffer = Buffer(chunks: seq<string>, current: string)

  const Empty: Buffer := Buffer([], [])

  /** Pushes the buffer, trimmed, when it is not empty: at most one chunk is
      added after the pushed ones, and one is exactly when the buffer holds
      something. */
  function Flush(b: Buffer): (r: seq<string>)
    ensures b.chunks <= r && |r| <= |b.chunks| + 1
    ensures r == b.chunks <==> b.current == []
  {
    if b.current != [] then b.chunks + [Trim(b.current)] else b.chunks
  }

  /** One iteration of the word loop: it pushes one chunk exactly when the
      word would take the buffer over the chunk size. */
  function WordStep(b: Buffer, word: string, size: nat): (r: Buffer)
    ensures b.chunks <= r.chunks
    ensures |r.chunks| == |b.chunks| + (if |b.current + word| > size then 1 else 0)
  {
    if |b.current + word| > size then Buffer(b.chunks + [Trim(b.current)], word + " ")
    else Buffer(b.chunks, b.current + word + " ")
  }

  /** The word loop run over `words`, from an empty buffer. */
  function WordRun(words: seq<string>, size: nat): Buffer {
    if words == [] then Empty
    else WordStep(WordRun(words[..|words| - 1], size), words[|words| - 1], size)
  }

  /** The chunks the word loop and its final push produce. */
  function WordChunks(words: seq<string>, size: nat): seq<string> {
    Flush(WordRun(words, size))
  }

  /** One iteration of the sentence loop: it only appends to the pushed
      chunks, and it leaves the buffer empty exactly when the sentence is
      overlong and does not fit. */
  function SentenceStep(b: Buffer, sentence: string, size: nat): (r: Buffer)
    ensures b.chunks <= r.chunks
    ensures r.current == [] <==> |b.current + sentence| > size && |sentence| > size
  {
    if |b.current + sentence| > size then
      if |sentence| > size then Buffer(Flush(b) + WordChunks(SplitOn(sentence, ' '), size), [])
      else Buffer(Flush(b), sentence + ". ")
    else
      Buffer(b.chunks, b.current + sentence + ". ")
  }

  /** The sentence loop run over `sentences`, from `start`. */
  function SentenceRun(start: Buffer, sentences: seq<string>, size: nat): Buffer {
    if sentences == [] then start
    else SentenceStep(SentenceRun(start, sentences[..|sentences| - 1], size), sentences[|sentences| - 1], size)
  }

  /** The chunks produced from a list of sentences: the loop, then the final push. */
  function ChunkSentences(sentences: seq<string>, size: nat): seq<string> {
    Flush(SentenceRun(Empty, sentences, size))
  }

  /** What `splitIntoChunks(text, size)` returns: never the empty list,
      whatever the text. */
  function Chunks(text: string, size: nat): (r: seq<string>)
    ensures |r| >= 1
  {
    ChunkSentencesNonEmpty(Sentences(text), size);
    ChunkSentences(Sentences(text), size)
  }

  /** The loop of `splitIntoChunks` (lines 33-69), with its sentence buffer
      and the output list it pushes to. */
  method SplitIntoChunks(text: string, chunkSize: nat) returns (chunks: seq<string>)
    ensures chunks == Chunks(text, chunkSize)
    ensures |chunks| >= 1
    ensures forall i :: 0 <= i < |chunks| ==> WellFormedChunk(chunks[i], chunkSize)
    ensures Skeleton(Flatten(chunks)) == Skeleton(text)
  {
    chunks := [];
    var currentChunk := "";
    var sentences := Sentences(text);
    var i := 0;
    while i < |sentences|
      invariant i <= |sentences|
      invariant Buffer(chunks, currentChunk) == SentenceRun(Empty, sentences[..i], chunkSize)
    {
      var sentence := sentences[i];
      ghost var before := Buffer(chunks, currentChunk);
      if |currentChunk + sentence| > chunkSize {
        if currentChunk != "" {
          chunks := chunks + [Trim(currentChunk)];
          currentChunk := "";
        }
        if |sentence| > chunkSize {
          chunks := PushWordGroups(chunks, sentence, chunkSize);
        } else {
          currentChunk := sentence + ". ";
        }
      } else {
        currentChunk := currentChunk + sentence + ". ";
      }
      assert Buffer(chunks, currentChunk) == SentenceStep(before, sentence, chunkSize);
      SentenceRunNext(sentences, i, chunkSize);
      i := i + 1;
    }
    if currentChunk != "" {
      chunks := chunks + [Trim(currentChunk)];
    }
    assert sentences[..i] == sentences;
    ChunksWellFormed(text, chunkSize);
    ChunksKeepContent(text, chunkSize);
  }

  /** The word-group fallback for an overlong sentence (lines 46-57): the inner
      loop with its word buffer, pushing to the same output list. */
  method PushWordGroups(chunks: seq<string>, sentence: string, chunkSize: nat) returns (pushed: seq<string>)
    ensures pushed == chunks + WordChunks(SplitOn(sentence, ' '), chunkSize)
  {
    pushed := chunks;
    var words := SplitOn(sentence, ' ');
    var currentWordChunk := "";
    var j := 0;
    ghost var run := Empty;
    while j < |words|
      invariant j <= |words|
      invariant run == WordRun(words[..j], chunkSize)
      invariant pushed == chunks + run.chunks && currentWordChunk == run.current
    {
      var word := words[j];
      if |currentWordChunk + word| > chunkSize {
        pushed := pushed + [Trim(currentWordChunk)];
        currentWordChunk := "";
      }
      currentWordChunk := currentWordChunk + word + " ";
      ghost var next := WordStep(run, word, chunkSize);
      assert pushed == chunks + next.chunks && currentWordChunk == next.current by {
        PushedStep(chunks, run, word, chunkSize);
      }
      WordRunNext(words, j, chunkSize);
      run := next;
      j := j + 1;
    }
    assert words[..j] == words;
    if currentWordChunk != "" {
      pushed := pushed + [Trim(currentWordChunk)];
      assert pushed == chunks + (run.chunks + [Trim(run.current)]);
    }
  }

  /** Pushing to the output list and pushing to the run's own list agree. */
  lemma PushedStep(chunks: seq<string>, run: Buffer, word: string, size: nat)
    ensures chunks + WordStep(run, word, size).chunks
         == (if |run.current + word| > size then chunks + run.chunks + [Trim(run.current)] else chunks + run.chunks)
  {
  }

  lemma SentenceRunNext(sentences: seq<string>, i: nat, size: nat)
    requires i < |sentences|
    ensures SentenceRun(Empty, sentences[..i + 1], size)
         == SentenceStep(SentenceRun(Empty, sentences[..i], size), sentences[i], size)
  {
    assert sentences[..i + 1][..i] == sentences[..i];
  }

  lemma WordRunNext(words: seq<string>, j: nat, size: nat)
    requires j < |words|
    ensures WordRun(words[..j + 1], size) == WordStep(WordRun(words[..j], size), words[j], size)
  {
    assert words[..j + 1][..j] == words[..j];
  }

  // ---------------------------------------------------------------------------
  // Shape of the chunks

  /** What holds of every chunk: it is its own trim, it has no `!` or `?`, and
      it is at most one code unit over the chunk size unless it has no space. */
  predicate WellFormedChunk(c: string, size: nat) {
    IsTrimmed(c) && '!' !in c && '?' !in c && (|c| <= size + 1 || ' ' !in c)
  }

  /** What holds of every chunk of the word loop: trimmed, no `!` or `?`, and
      longer than the chunk size only when it is a single word. */
  predicate WordChunkOk(c: string, size: nat) {
    IsTrimmed(c) && '!' !in c && '?' !in c && (|c| <= size || ' ' !in c)
  }

  /** The word loop's buffer always ends in a space, and it is at most one over
      the chunk size unless it is a single word followed by its space. */
  predicate WordBufferOk(b: Buffer, size: nat) {
    (forall i :: 0 <= i < |b.chunks| ==> WordChunkOk(b.chunks[i], size))
    && '!' !in b.current && '?' !in b.current
    && (b.current == [] || (b.current[|b.current| - 1] == ' '
                            && (|b.current| <= size + 1 || ' ' !in b.current[..|b.current| - 1])))
  }

  /** The sentence loop's buffer always ends in `". "` and is at most two over
      the chunk size. */
  predicate SentenceBufferOk(b: Buffer, size: nat) {
    (forall i :: 0 <= i < |b.chunks| ==> WellFormedChunk(b.chunks[i], size))
    && '!' !in b.current && '?' !in b.current
    && (b.current == [] || (b.current[|b.current| - 1] == ' ' && |b.current| <= size + 2))
  }

  predicate Wordlike(w: string) {
    ' ' !in w && '!' !in w && '?' !in w
  }

  lemma TrimWordBuffer(b: Buffer, size: nat)
    requires WordBufferOk(b, size)
    ensures WordChunkOk(Trim(b.current), size)
  {
    var cur := b.current;
    TrimShape(cur);
    TrimKeeps(cur, '!');
    TrimKeeps(cur, '?');
    if cur != [] {
      if |cur| <= size + 1 {
        TrimDropsTrailing(cur);
      } else {
        var w := cur[..|cur| - 1];
        assert cur == w + [' '];
        TrimAppendWhitespace(w, ' ');
        TrimKeeps(w, ' ');
      }
    }
  }

  lemma {:induction false} WordRunOk(words: seq<string>, size: nat)
    requires forall k :: 0 <= k < |words| ==> Wordlike(words[k])
    ensures WordBufferOk(WordRun(words, size), size)
  {
    if words != [] {
      var prefix := words[..|words| - 1];
      WordRunOk(prefix, size);
      WordStepOk(WordRun(prefix, size), words[|words| - 1], size);
    }
  }

  /** One word-loop step keeps the word buffer's shape. */
  lemma WordStepOk(b: Buffer, word: string, size: nat)
    requires WordBufferOk(b, size) && Wordlike(word)
    ensures WordBufferOk(WordStep(b, word, size), size)
  {
    TrimWordBuffer(b, size);
    var base := if |b.current + word| > size then [] else b.current;
    var cur := base + word + " ";
    assert WordStep(b, word, size).current == cur;
    assert cur[..|cur| - 1] == base + word;
  }

  /** Every word-group chunk is trimmed, free of `!` and `?`, and exceeds the
      chunk size only when it holds no space, that is a single word. */
  lemma WordChunksShape(words: seq<string>, size: nat)
    requires forall k :: 0 <= k < |words| ==> Wordlike(words[k])
    ensures forall i :: 0 <= i < |WordChunks(words, size)| ==> WordChunkOk(WordChunks(words, size)[i], size)
  {
    WordRunOk(words, size);
    TrimWordBuffer(WordRun(words, size), size);
  }

  /** The words of a terminator-free sentence are word-like. */
  lemma WordsOfSentence(sentence: string)
    requires NoTerminator(sentence)
    ensures forall k :: 0 <= k < |SplitOn(sentence, ' ')| ==> Wordlike(SplitOn(sentence, ' ')[k])
  {
    assert '!' !in sentence && '?' !in sentence;
    SplitOnKeeps(sentence, ' ', '!');
    SplitOnKeeps(sentence, ' ', '?');
  }

  lemma TrimSentenceBuffer(b: Buffer, size: nat)
    requires SentenceBufferOk(b, size)
    ensures forall i :: 0 <= i < |Flush(b)| ==> WellFormedChunk(Flush(b)[i], size)
  {
    var cur := b.current;
    if cur != [] {
      TrimShape(cur);
      TrimKeeps(cur, '!');
      TrimKeeps(cur, '?');
      TrimDropsTrailing(cur);
    }
  }

  lemma {:induction false} SentenceRunOk(sentences: seq<string>, size: nat)
    requires forall k :: 0 <= k < |sentences| ==> NoTerminator(sentences[k])
    ensures SentenceBufferOk(SentenceRun(Empty, sentences, size), size)
  {
    if sentences != [] {
      var prefix := sentences[..|sentences| - 1];
      var s := sentences[|sentences| - 1];
      SentenceRunOk(prefix, size);
      var b := SentenceRun(Empty, prefix, size);
      TrimSentenceBuffer(b, size);
      assert '!' !in s && '?' !in s;
      if |b.current + s| > size && |s| > size {
        var words := SplitOn(s, ' ');
        WordsOfSentence(s);
        WordChunksShape(words, size);
        var w := WordChunks(words, size);
        assert forall i :: 0 <= i < |w| ==> WellFormedChunk(w[i], size);
      }
    }
  }

  /** Every chunk is its own trim, contains neither `!` nor `?`, and is at most
      one code unit longer than the chunk size unless it holds no space. */
  lemma ChunksWellFormed(text: string, size: nat)
    ensures forall i :: 0 <= i < |Chunks(text, size)| ==> WellFormedChunk(Chunks(text, size)[i], size)
  {
    SentenceRunOk(Sentences(text), size);
    TrimSentenceBuffer(SentenceRun(Empty, Sentences(text), size), size);
  }

  /** `c` is one of the word groups of a sentence of `sentences` that is
      longer than the chunk size. */
  ghost predicate FromOverlongSentence(c: string, sentences: seq<string>, size: nat) {
    exists k :: 0 <= k < |sentences| && |sentences[k]| > size && c in WordChunks(SplitOn(sentences[k], ' '), size)
  }

  /** Every chunk is at most one code unit over the chunk size, or it is a word
      group of an overlong sentence. */
  lemma ChunksBound(text: string, size: nat)
    ensures forall i :: 0 <= i < |Chunks(text, size)| ==>
      |Chunks(text, size)[i]| <= size + 1 || FromOverlongSentence(Chunks(text, size)[i], Sentences(text), size)
  {
    var b := SentenceRun(Empty, Sentences(text), size);
    SentenceRunBound(Sentences(text), size);
    if b.current != [] {
      TrimDropsTrailing(b.current);
    }
  }

  /** The sentence loop's chunks are bounded as in `ChunksBound`, and its
      buffer ends in a space and is at most two over the chunk size. */
  lemma {:induction false} SentenceRunBound(sentences: seq<string>, size: nat)
    ensures var b := SentenceRun(Empty, sentences, size);
      (forall i :: 0 <= i < |b.chunks| ==>
         |b.chunks[i]| <= size + 1 || FromOverlongSentence(b.chunks[i], sentences, size))
      && (b.current == [] || (b.current[|b.current| - 1] == ' ' && |b.current| <= size + 2))
  {
    if sentences != [] {
      var prefix, s := sentences[..|sentences| - 1], sentences[|sentences| - 1];
      SentenceRunBound(prefix, size);
      var b := SentenceRun(Empty, prefix, size);
      var f := Flush(b);
      FlushBound(b, prefix, sentences, size);
      if |b.current + s| > size && |s| > size {
        var w := WordChunks(SplitOn(s, ' '), size);
        assert SentenceRun(Empty, sentences, size).chunks == f + w;
        forall i | 0 <= i < |w| ensures FromOverlongSentence(w[i], sentences, size) {
          assert sentences[|sentences| - 1] == s && w[i] in w;
        }
      }
    }
  }

  /** Flushing a bounded buffer of the sentences so far keeps the bound, for
      any list of sentences that extends them. */
  lemma FlushBound(b: Buffer, prefix: seq<string>, sentences: seq<string>, size: nat)
    requires prefix <= sentences
    requires forall i :: 0 <= i < |b.chunks| ==>
      |b.chunks[i]| <= size + 1 || FromOverlongSentence(b.chunks[i], prefix, size)
    requires b.current == [] || (b.current[|b.current| - 1] == ' ' && |b.current| <= size + 2)
    ensures forall i :: 0 <= i < |Flush(b)| ==>
      |Flush(b)[i]| <= size + 1 || FromOverlongSentence(Flush(b)[i], sentences, size)
  {
    if b.current != [] {
      TrimDropsTrailing(b.current);
    }
    forall i | 0 <= i < |b.chunks| && |b.chunks[i]| > size + 1
      ensures FromOverlongSentence(b.chunks[i], sentences, size)
    {
      var k :| 0 <= k < |prefix| && |prefix[k]| > size && b.chunks[i] in WordChunks(SplitOn(prefix[k], ' '), size);
      assert sentences[k] == prefix[k];
    }
  }

  /** While no sentence is longer than the chunk size, every chunk comes from
      the sentence buffer, and is at most one code unit over the chunk size:
      the test counts the sentence but not the `". "` appended after it. */
  lemma SentencePathBound(sentences: seq<string>, size: nat)
    requires forall k :: 0 <= k < |sentences| ==> |sentences[k]| <= size
    ensures forall i :: 0 <= i < |ChunkSentences(sentences, size)| ==> |ChunkSentences(sentences, size)[i]| <= size + 1
  {
    SentenceRunBound(sentences, size);
    var b := SentenceRun(Empty, sentences, size);
    if b.current != [] {
      TrimDropsTrailing(b.current);
    }
  }

  // ---------------------------------------------------------------------------
  // At least one chunk; the empty text

  /** The word loop always leaves a non-empty buffer, so its final push happens. */
  lemma WordRunLeavesBuffer(words: seq<string>, size: nat)
    requires words != []
    ensures WordRun(words, size).current != []
    ensures |WordChunks(words, size)| >= 1
  {
  }

  /** Any non-empty list of sentences yields at least one chunk. */
  lemma {:induction false} ChunkSentencesNonEmpty(sentences: seq<string>, size: nat)
    requires sentences != []
    ensures |ChunkSentences(sentences, size)| >= 1
  {
    var s := sentences[|sentences| - 1];
    var b := SentenceRun(Empty, sentences[..|sentences| - 1], size);
    if |b.current + s| > size && |s| > size {
      WordRunLeavesBuffer(SplitOn(s, ' '), size);
    }
  }

  /** The empty text is one empty sentence, which is buffered as `". "` and
      pushed trimmed: the result is `["."]`, not the empty list. */
  lemma ChunksOfEmptyText(size: nat)
    ensures Chunks("", size) == ["."]
  {
    assert Sentences("") == [""];
    assert SentenceRun(Empty, [""], size) == Buffer([], ". ");
    assert TrimStart(". ") == ". ";
    assert TrimEnd(". ") == TrimEnd(".") == ".";
  }

  /** A whitespace-only text no longer than the chunk size gives `["."]`, as
      the empty text does. */
  lemma BlankTextWithinSize(text: string, size: nat)
    requires AllWhitespace(text) && |text| <= size
    ensures Chunks(text, size) == ["."]
  {
    BlankSentence(text, size);
    assert SentenceRun(Empty, [text], size) == Buffer([], text + ". ");
    WhitespaceTrimsAway(text);
    TrimStartAppend(text, ". ");
    assert TrimStart(". ") == ". ";
    assert TrimEnd(". ") == TrimEnd(".") == ".";
  }

  /** A whitespace-only text longer than the chunk size goes through the word
      loop, and every chunk it gives is empty. */
  lemma BlankTextOverSize(text: string, size: nat)
    requires AllWhitespace(text) && |text| > size
    ensures |Chunks(text, size)| >= 1
    ensures forall i :: 0 <= i < |Chunks(text, size)| ==> Chunks(text, size)[i] == ""
  {
    BlankSentence(text, size);
    var words := SplitOn(text, ' ');
    assert SentenceRun(Empty, [text], size) == Buffer(WordChunks(words, size), []);
    SplitOnWhitespace(text, ' ');
    BlankWordRun(words, size);
    WhitespaceTrimsAway(WordRun(words, size).current);
  }

  /** A whitespace-only text is a single sentence, run in one step. */
  lemma BlankSentence(text: string, size: nat)
    requires AllWhitespace(text)
    ensures Sentences(text) == [text]
    ensures SentenceRun(Empty, [text], size) == SentenceStep(Empty, text, size)
  {
    assert NoTerminator(text) by {
      forall k | 0 <= k < |text| ensures !IsTerminator(text[k]) {
        assert IsWhitespace(text[k]);
      }
    }
    SentencesOfPlainText(text);
    assert [text][..0] == [];
  }

  /** Over whitespace-only words, the word loop pushes only empty chunks and
      its buffer stays whitespace. */
  lemma {:induction false} BlankWordRun(words: seq<string>, size: nat)
    requires forall k :: 0 <= k < |words| ==> AllWhitespace(words[k])
    ensures var b := WordRun(words, size);
      (forall i :: 0 <= i < |b.chunks| ==> b.chunks[i] == []) && AllWhitespace(b.current)
  {
    if words != [] {
      var prefix, w := words[..|words| - 1], words[|words| - 1];
      BlankWordRun(prefix, size);
      var b := WordRun(prefix, size);
      WhitespaceTrimsAway(b.current);
      var base := if |b.current + w| > size then [] else b.current;
      var cur := base + w + " ";
      assert WordRun(words, size).current == cur;
      assert AllWhitespace(cur) by {
        assert forall k :: 0 <= k < |base| ==> cur[k] == base[k];
        assert forall k :: |base| <= k < |base| + |w| ==> cur[k] == w[k - |base|];
        assert cur[|cur| - 1] == ' ';
      }
    }
  }

  // ---------------------------------------------------------------------------
  // An overlong sentence stands apart

  lemma {:induction false} SentenceRunAppend(start: Buffer, a: seq<string>, b: seq<string>, size: nat)
    ensures SentenceRun(start, a + b, size) == SentenceRun(SentenceRun(start, a, size), b, size)
  {
    if b == [] {
      assert a + b == a;
    } else {
      var front, last := b[..|b| - 1], b[|b| - 1];
      SentenceRunAppend(start, a, front, size);
      assert (a + b)[..|a + b| - 1] == a + front && (a + b)[|a + b| - 1] == last;
      var mid := SentenceRun(start, a + front, size);
      assert SentenceRun(start, a + b, size) == SentenceStep(mid, last, size);
      assert SentenceRun(SentenceRun(start, a, size), b, size) == SentenceStep(mid, last, size);
    }
  }

  lemma SentenceStepAfter(pushed: seq<string>, b: Buffer, s: string, size: nat)
    ensures var r := SentenceStep(b, s, size);
      SentenceStep(Buffer(pushed + b.chunks, b.current), s, size) == Buffer(pushed + r.chunks, r.current)
  {
    assert Flush(Buffer(pushed + b.chunks, b.current)) == pushed + Flush(b);
    if |b.current + s| > size && |s| > size {
      var w := WordChunks(SplitOn(s, ' '), size);
      assert pushed + Flush(b) + w == pushed + (Flush(b) + w);
    }
  }

  /** The chunks already pushed play no part in what the loop does next. */
  lemma {:induction false} SentenceRunAfter(pushed: seq<string>, current: string, sentences: seq<string>, size: nat)
    ensures var r := SentenceRun(Buffer([], current), sentences, size);
      SentenceRun(Buffer(pushed, current), sentences, size) == Buffer(pushed + r.chunks, r.current)
  {
    if sentences == [] {
      assert pushed + [] == pushed;
    } else {
      SentenceRunAfter(pushed, current, sentences[..|sentences| - 1], size);
      var r := SentenceRun(Buffer([], current), sentences[..|sentences| - 1], size);
      SentenceStepAfter(pushed, r, sentences[|sentences| - 1], size);
    }
  }

  /** A sentence longer than the chunk size shares no chunk with its
      neighbours: the buffer is flushed before it and empty after it, so the
      chunks are those of the sentences before it, then its word groups, then
      those of the sentences after it, in that order. */
  lemma {:induction false} OverlongSentenceIsolated(before: seq<string>, s: string, after: seq<string>, size: nat)
    requires |s| > size
    ensures ChunkSentences(before + [s] + after, size)
         == ChunkSentences(before, size) + WordChunks(SplitOn(s, ' '), size) + ChunkSentences(after, size)
  {
    var w := WordChunks(SplitOn(s, ' '), size);
    SentenceRunAppend(Empty, before + [s], after, size);
    SentenceRunAppend(Empty, before, [s], size);
    var b := SentenceRun(Empty, before, size);
    assert SentenceRun(b, [s], size) == SentenceStep(b, s, size);
    assert SentenceStep(b, s, size) == Buffer(ChunkSentences(before, size) + w, []);
    SentenceRunAfter(ChunkSentences(before, size) + w, [], after, size);
    var r := SentenceRun(Empty, after, size);
    assert Flush(Buffer(ChunkSentences(before, size) + w + r.chunks, r.current))
        == ChunkSentences(before, size) + w + Flush(r);
  }

  /** When the first word of an overlong sentence is itself longer than the
      chunk size, the word loop pushes its still empty buffer first: the first
      chunk of the sentence is `""`. */
  lemma {:induction false} OverlongFirstWordGivesEmptyChunk(words: seq<string>, size: nat)
    requires words != [] && |words[0]| > size
    ensures |WordChunks(words, size)| >= 2 && WordChunks(words, size)[0] == ""
  {
    assert words[..1][..0] == [];
    assert WordRun(words[..1], size) == Buffer([Trim([])], words[0] + " ");
    WordRunGrows(words, 1, size);
  }

  /** The word loop only appends to the chunks it has pushed. */
  lemma {:induction false} WordRunGrows(words: seq<string>, k: nat, size: nat)
    requires k <= |words|
    ensures WordRun(words[..k], size).chunks <= WordRun(words, size).chunks
  {
    if k < |words| {
      WordRunGrows(words[..|words| - 1], k, size);
      assert words[..|words| - 1][..k] == words[..k];
    } else {
      assert words[..k] == words;
    }
  }

  /** At the level of the whole text: the chunk after those of the sentences
      before an overlong sentence with an overlong first word is `""`. */
  lemma EmptyChunkBeforeOverlongWord(before: seq<string>, s: string, after: seq<string>, size: nat)
    requires |s| > size && |SplitOn(s, ' ')[0]| > size
    ensures |ChunkSentences(before, size)| < |ChunkSentences(before + [s] + after, size)|
    ensures ChunkSentences(before + [s] + after, size)[|ChunkSentences(before, size)|] == ""
  {
    OverlongSentenceIsolated(before, s, after, size);
    OverlongFirstWordGivesEmptyChunk(SplitOn(s, ' '), size);
  }

  // ---------------------------------------------------------------------------
  // Content and order are kept

  /** The characters that survive chunking: all but whitespace and terminators. */
  function Skeleton(s: string): string {
    if s == [] then []
    else if IsWhitespace(s[0]) || IsTerminator(s[0]) then Skeleton(s[1..])
    else [s[0]] + Skeleton(s[1..])
  }

  function Flatten(ss: seq<string>): string {
    if ss == [] then [] else ss[0] + Flatten(ss[1..])
  }

  lemma {:induction false} SkeletonAppend(a: string, b: string)
    ensures Skeleton(a + b) == Skeleton(a) + Skeleton(b)
  {
    if a != [] {
      SkeletonAppend(a[1..], b);
      assert (a + b)[1..] == a[1..] + b;
    } else {
      assert a + b == b;
    }
  }

  lemma {:induction false} SkeletonOfWhitespace(s: string)
    requires AllWhitespace(s)
    ensures Skeleton(s) == []
  {
    if s != [] {
      SkeletonOfWhitespace(s[1..]);
    }
  }

  /** Trimming removes no surviving character. */
  lemma SkeletonTrim(s: string)
    ensures Skeleton(Trim(s)) == Skeleton(s)
  {
    TrimShape(s);
    var r, k := Trim(s), |s| - |TrimStart(s)|;
    assert s == s[..k] + r + s[k + |r|..];
    SkeletonAppend(s[..k] + r, s[k + |r|..]);
    SkeletonAppend(s[..k], r);
    SkeletonOfWhitespace(s[..k]);
    SkeletonOfWhitespace(s[k + |r|..]);
  }

  lemma {:induction false} FlattenAppend(a: seq<string>, b: seq<string>)
    ensures Flatten(a + b) == Flatten(a) + Flatten(b)
  {
    if a != [] {
      FlattenAppend(a[1..], b);
      assert (a + b)[1..] == a[1..] + b;
    } else {
      assert a + b == b;
    }
  }

  /** Appending text and a separator of whitespace or terminators adds exactly
      the text's surviving characters. */
  lemma SkeletonAppendPiece(x: string, piece: string, sep: string)
    requires Skeleton(sep) == []
    ensures Skeleton(x + piece + sep) == Skeleton(x) + Skeleton(piece)
  {
    SkeletonAppend(x + piece, sep);
    SkeletonAppend(x, piece);
  }

  ghost function BufferContent(b: Buffer): string {
    Skeleton(Flatten(b.chunks)) + Skeleton(b.current)
  }

  /** Pushing a trimmed buffer adds exactly the buffer's surviving characters. */
  lemma PushContent(chunks: seq<string>, current: string)
    ensures Skeleton(Flatten(chunks + [Trim(current)])) == Skeleton(Flatten(chunks)) + Skeleton(current)
  {
    var t := Trim(current);
    FlattenAppend(chunks, [t]);
    assert [t][1..] == [];
    assert Flatten([t]) == t;
    SkeletonAppend(Flatten(chunks), Trim(current));
    SkeletonTrim(current);
  }

  lemma FlushContent(b: Buffer)
    ensures Skeleton(Flatten(Flush(b))) == BufferContent(b)
  {
    if b.current != [] {
      PushContent(b.chunks, b.current);
    }
  }

  /** One word-loop step adds exactly the word's surviving characters. */
  lemma WordStepContent(b: Buffer, word: string, size: nat)
    ensures BufferContent(WordStep(b, word, size)) == BufferContent(b) + Skeleton(word)
  {
    var flat, cur := Skeleton(Flatten(b.chunks)), Skeleton(b.current);
    var next := WordStep(b, word, size);
    if |b.current + word| > size {
      assert Skeleton(Flatten(next.chunks)) == flat + cur by {
        PushContent(b.chunks, b.current);
      }
      assert Skeleton(next.current) == Skeleton(word) by {
        assert Skeleton(" ") == [] && Skeleton([]) == [];
        SkeletonAppendPiece([], word, " ");
        assert [] + word + " " == word + " ";
      }
    } else {
      assert Skeleton(next.current) == cur + Skeleton(word) by {
        assert Skeleton(" ") == [];
        SkeletonAppendPiece(b.current, word, " ");
      }
    }
  }

  /** The surviving characters of a list, last element split off. */
  lemma FlattenLast(ss: seq<string>)
    requires ss != []
    ensures Skeleton(Flatten(ss)) == Skeleton(Flatten(ss[..|ss| - 1])) + Skeleton(ss[|ss| - 1])
  {
    var front, last := ss[..|ss| - 1], ss[|ss| - 1];
    assert ss == front + [last];
    FlattenAppend(front, [last]);
    assert Flatten([last]) == last;
    SkeletonAppend(Flatten(front), last);
  }

  lemma {:induction false} WordRunContent(words: seq<string>, size: nat)
    ensures BufferContent(WordRun(words, size)) == Skeleton(Flatten(words))
  {
    if words != [] {
      var prefix, word := words[..|words| - 1], words[|words| - 1];
      WordRunContent(prefix, size);
      WordStepContent(WordRun(prefix, size), word, size);
      FlattenLast(words);
    }
  }

  lemma {:induction false} SkeletonJoin(parts: seq<string>)
    ensures Skeleton(Join(parts, ' ')) == Skeleton(Flatten(parts))
  {
    if |parts| == 1 {
      assert parts[1..] == [];
      assert Flatten(parts) == parts[0] + Flatten([]) == parts[0];
    } else if |parts| > 1 {
      SkeletonJoin(parts[1..]);
      assert Skeleton([' ']) == [];
      SkeletonAppend(parts[0] + [' '], Join(parts[1..], ' '));
      SkeletonAppend(parts[0], [' ']);
      SkeletonAppend(parts[0], Flatten(parts[1..]));
    }
  }

  /** The word groups of a sentence keep its surviving characters, in order. */
  lemma WordChunksContent(s: string, size: nat)
    ensures Skeleton(Flatten(WordChunks(SplitOn(s, ' '), size))) == Skeleton(s)
  {
    var words := SplitOn(s, ' ');
    FlushContent(WordRun(words, size));
    WordRunContent(words, size);
    SkeletonJoin(words);
    JoinSplit(s, ' ');
  }

  /** One sentence-loop step adds exactly the sentence's surviving characters. */
  lemma SentenceStepContent(b: Buffer, s: string, size: nat)
    ensures BufferContent(SentenceStep(b, s, size)) == BufferContent(b) + Skeleton(s)
  {
    var flat, cur := Skeleton(Flatten(b.chunks)), Skeleton(b.current);
    var next := SentenceStep(b, s, size);
    if |b.current + s| > size {
      assert Skeleton(Flatten(Flush(b))) == flat + cur by {
        FlushContent(b);
      }
      if |s| > size {
        var w := WordChunks(SplitOn(s, ' '), size);
        assert next == Buffer(Flush(b) + w, []);
        assert Skeleton(Flatten(Flush(b) + w)) == flat + cur + Skeleton(s) by {
          WordChunksContent(s, size);
          FlattenAppend(Flush(b), w);
          SkeletonAppend(Flatten(Flush(b)), Flatten(w));
        }
      } else {
        assert next == Buffer(Flush(b), s + ". ");
        assert Skeleton(s + ". ") == Skeleton(s) by {
          assert Skeleton(". ") == [] && Skeleton([]) == [];
          SkeletonAppendPiece([], s, ". ");
          assert [] + s + ". " == s + ". ";
        }
      }
    } else {
      assert Skeleton(next.current) == cur + Skeleton(s) by {
        assert Skeleton(". ") == [];
        SkeletonAppendPiece(b.current, s, ". ");
      }
    }
  }

  lemma {:induction false} SentenceRunContent(sentences: seq<string>, size: nat)
    ensures BufferContent(SentenceRun(Empty, sentences, size)) == Skeleton(Flatten(sentences))
  {
    if sentences != [] {
      var prefix, s := sentences[..|sentences| - 1], sentences[|sentences| - 1];
      SentenceRunContent(prefix, size);
      SentenceStepContent(SentenceRun(Empty, prefix, size), s, size);
      FlattenLast(sentences);
    }
  }

  /** Splitting into sentences drops only terminators. */
  lemma {:induction false} SentencesContent(s: string)
    ensures Skeleton(Flatten(Sentences(s))) == Skeleton(s)
  {
    if s != [] {
      SentencesContent(s[1..]);
      var rest := Sentences(s[1..]);
      if IsTerminator(s[0]) {
        assert Skeleton(s) == Skeleton(s[1..]);
        if |s| > 1 && IsTerminator(s[1]) {
          assert Sentences(s) == rest;
        } else {
          assert Sentences(s) == [[]] + rest;
          assert ([[]] + rest)[1..] == rest;
          assert Flatten([[]] + rest) == [] + Flatten(rest);
          assert [] + Flatten(rest) == Flatten(rest);
        }
      } else {
        var r := [[s[0]] + rest[0]] + rest[1..];
        assert r[1..] == rest[1..];
        assert Flatten(rest) == rest[0] + Flatten(rest[1..]);
        assert Flatten(r) == [s[0]] + Flatten(rest);
        SkeletonAppend([s[0]], Flatten(rest));
        SkeletonAppend([s[0]], s[1..]);
        assert [s[0]] + s[1..] == s;
      }
    }
  }

  /** A terminator-free piece followed by a single terminator, whichever of
      `.`, `!` and `?` it is, is one sentence, and splitting goes on after the
      terminator. */
  lemma {:induction false} SentencesAfterPiece(p: string, c: char, rest: string)
    requires NoTerminator(p) && IsTerminator(c) && (rest == [] || !IsTerminator(rest[0]))
    ensures Sentences(p + [c] + rest) == [p] + Sentences(rest)
  {
    var s := p + [c] + rest;
    if p == [] {
      assert s == [c] + rest && s[1..] == rest;
    } else {
      SentencesAfterPiece(p[1..], c, rest);
      assert s[1..] == p[1..] + [c] + rest;
      assert [p[0]] + p[1..] == p;
    }
  }

  /** A text with no terminator is a single sentence. */
  lemma {:induction false} SentencesOfPlainText(s: string)
    requires NoTerminator(s)
    ensures Sentences(s) == [s]
  {
    if s != [] {
      SentencesOfPlainText(s[1..]);
      assert [s[0]] + s[1..] == s;
    }
  }

  predicate AllTerminators(s: string) {
    forall k :: 0 <= k < |s| ==> IsTerminator(s[k])
  }

  /** The runs of terminators that `split(/[.!?]+/)` consumes, in order. */
  function TerminatorRuns(s: string): seq<string> {
    if s == [] then []
    else if IsTerminator(s[0]) then
      var t := TerminatorRuns(s[1..]);
      if |s| > 1 && IsTerminator(s[1]) && t != [] then [[s[0]] + t[0]] + t[1..] else [[s[0]]] + t
    else TerminatorRuns(s[1..])
  }

  /** `pieces[0] + runs[0] + pieces[1] + ... + pieces[|pieces| - 1]`. */
  function Interleave(pieces: seq<string>, runs: seq<string>): string
    requires |runs| + 1 == |pieces|
  {
    if runs == [] then pieces[0] else pieces[0] + runs[0] + Interleave(pieces[1..], runs[1..])
  }

  /** `s` is `pieces` interleaved with `runs`, where the pieces are free of
      terminators, the runs are non-empty runs of terminators, and only the
      first and the last piece may be empty: the runs are then maximal. */
  predicate SplitsInto(s: string, pieces: seq<string>, runs: seq<string>) {
    |runs| + 1 == |pieces|
    && (forall i :: 0 <= i < |pieces| ==> NoTerminator(pieces[i]))
    && (forall i :: 0 <= i < |runs| ==> runs[i] != [] && AllTerminators(runs[i]))
    && (forall i :: 0 < i < |pieces| - 1 ==> pieces[i] != [])
    && Interleave(pieces, runs) == s
  }

  lemma InterleaveCons(a: string, pieces: seq<string>, runs: seq<string>)
    requires |runs| + 1 == |pieces|
    ensures Interleave([a + pieces[0]] + pieces[1..], runs) == a + Interleave(pieces, runs)
  {
    var p := [a + pieces[0]] + pieces[1..];
    assert p[0] == a + pieces[0] && p[1..] == pieces[1..];
  }

  /** The sentences, interleaved with the terminator runs, give the text back. */
  lemma {:induction false} SentencesRoundTrip(s: string)
    ensures SplitsInto(s, Sentences(s), TerminatorRuns(s))
    ensures s != [] && IsTerminator(s[0]) ==> Sentences(s)[0] == []
  {
    if s != [] {
      var c, u := s[0], s[1..];
      SentencesRoundTrip(u);
      var r, t := Sentences(u), TerminatorRuns(u);
      assert [c] + u == s;
      if IsTerminator(c) {
        if |s| > 1 && IsTerminator(s[1]) {
          assert u[0] == s[1];
          RunGrows(c, u, r, t);
        } else {
          assert u != [] ==> r[0] != [];
          RunStarts(c, u, r, t);
        }
      } else {
        PieceGrows(c, u, r, t);
      }
    }
  }

  /** A terminator in front of a text that starts with a run joins that run. */
  lemma RunGrows(c: char, u: string, pieces: seq<string>, runs: seq<string>)
    requires SplitsInto(u, pieces, runs) && pieces[0] == [] && runs != [] && IsTerminator(c)
    ensures SplitsInto([c] + u, pieces, [[c] + runs[0]] + runs[1..])
  {
    var t := [[c] + runs[0]] + runs[1..];
    assert t[0] == [c] + runs[0] && t[1..] == runs[1..];
    assert forall i :: 0 < i < |t| ==> t[i] == runs[i];
  }

  /** A terminator in front of a text that starts with a piece starts a run
      after a new, empty first piece. */
  lemma RunStarts(c: char, u: string, pieces: seq<string>, runs: seq<string>)
    requires SplitsInto(u, pieces, runs) && IsTerminator(c) && (u != [] ==> pieces[0] != [])
    ensures SplitsInto([c] + u, [[]] + pieces, [[c]] + runs)
  {
    var p, t := [[]] + pieces, [[c]] + runs;
    assert p[1..] == pieces && t[1..] == runs;
    assert forall i :: 0 < i < |p| ==> p[i] == pieces[i - 1];
    assert forall i :: 0 < i < |t| ==> t[i] == runs[i - 1];
    assert |pieces| == 1 ==> u == pieces[0];
  }

  /** Any other character in front of a text joins its first piece. */
  lemma PieceGrows(c: char, u: string, pieces: seq<string>, runs: seq<string>)
    requires SplitsInto(u, pieces, runs) && !IsTerminator(c)
    ensures SplitsInto([c] + u, [[c] + pieces[0]] + pieces[1..], runs)
  {
    var p := [[c] + pieces[0]] + pieces[1..];
    InterleaveCons([c], pieces, runs);
    assert forall i :: 0 < i < |p| ==> p[i] == pieces[i];
    assert NoTerminator(p[0]);
  }

  /** No other split of `s` meets `SplitsInto`: `Sentences` is the only one. */
  lemma {:induction false} SentencesUnique(s: string, pieces: seq<string>, runs: seq<string>)
    requires SplitsInto(s, pieces, runs)
    ensures pieces == Sentences(s)
    decreases |s|
  {
    if pieces[0] != [] {
      var p := pieces[0];
      PieceShrinks(s, pieces, runs);
      SentencesUnique(s[1..], [p[1..]] + pieces[1..], runs);
      assert [p[0]] + p[1..] == p;
    } else if runs == [] {
      assert s == [];
    } else if |runs[0]| > 1 {
      RunShrinks(s, pieces, runs);
      SentencesUnique(s[1..], pieces, [runs[0][1..]] + runs[1..]);
    } else {
      RunEnds(s, pieces, runs);
      SentencesUnique(s[1..], pieces[1..], runs[1..]);
      assert [[]] + pieces[1..] == pieces;
    }
  }

  /** A split whose first piece is non-empty: that piece's first character
      opens the text, and the rest splits with the piece shortened. */
  lemma PieceShrinks(s: string, pieces: seq<string>, runs: seq<string>)
    requires SplitsInto(s, pieces, runs) && pieces[0] != []
    ensures s != [] && s[0] == pieces[0][0] && !IsTerminator(s[0])
    ensures SplitsInto(s[1..], [pieces[0][1..]] + pieces[1..], runs)
  {
    var p := pieces[0];
    var p' := [p[1..]] + pieces[1..];
    InterleaveCons([p[0]], p', runs);
    assert [p[0]] + p[1..] == p && p'[1..] == pieces[1..];
    assert [p[0]] + p'[0] == p;
    assert s == [p[0]] + Interleave(p', runs);
    assert forall i :: 0 < i < |p'| ==> p'[i] == pieces[i];
    assert NoTerminator(p'[0]);
  }

  /** A split that opens with a run of two or more terminators: the rest
      splits with that run shortened. */
  lemma RunShrinks(s: string, pieces: seq<string>, runs: seq<string>)
    requires SplitsInto(s, pieces, runs) && pieces[0] == [] && runs != [] && |runs[0]| > 1
    ensures |s| > 1 && IsTerminator(s[0]) && IsTerminator(s[1])
    ensures SplitsInto(s[1..], pieces, [runs[0][1..]] + runs[1..])
  {
    var run := runs[0];
    var tail := Interleave(pieces[1..], runs[1..]);
    var t' := [run[1..]] + runs[1..];
    assert s == run + tail;
    assert s[0] == run[0] && s[1] == run[1];
    assert t'[1..] == runs[1..];
    assert s[1..] == run[1..] + tail;
    assert forall i :: 0 < i < |t'| ==> t'[i] == runs[i];
    assert AllTerminators(run[1..]);
  }

  /** A split that opens with a single terminator: the rest splits into the
      remaining pieces, and does not open with a terminator. */
  lemma RunEnds(s: string, pieces: seq<string>, runs: seq<string>)
    requires SplitsInto(s, pieces, runs) && pieces[0] == [] && runs != [] && |runs[0]| == 1
    ensures s != [] && IsTerminator(s[0]) && !(|s| > 1 && IsTerminator(s[1]))
    ensures SplitsInto(s[1..], pieces[1..], runs[1..])
  {
    var tail := Interleave(pieces[1..], runs[1..]);
    assert s == runs[0] + tail && s[0] == runs[0][0];
    assert s[1..] == tail;
    assert forall i :: 0 < i < |pieces| - 2 ==> pieces[1..][i] == pieces[i + 1];
    if |s| > 1 {
      assert pieces[1] != [] && s[1] == pieces[1][0];
    }
  }

  /** Chunking keeps every character that is neither whitespace nor a
      terminator, in its original order, and adds none: re-joining the chunks
      gives the text back up to whitespace and terminators. */
  lemma ChunksKeepContent(text: string, size: nat)
    ensures Skeleton(Flatten(Chunks(text, size))) == Skeleton(text)
  {
    var b := SentenceRun(Empty, Sentences(text), size);
    FlushContent(b);
    SentenceRunContent(Sentences(text), size);
    SentencesContent(text);
  }

  // ---------------------------------------------------------------------------
  // A worked example

  /** Three short sentences with chunk size 5: the separators come back as
      `". "` (a doubled space where the sentence kept its leading space), and
      the empty piece after the final `.` adds a stray `"."`. */
  lemma ThreeSentencesExample()
    ensures Chunks("A. B. C.", 5) == ["A.  B.", "C. ."]
  {
    ExampleSentences();
    ExampleChunks();
  }

  lemma ExampleSentences()
    ensures Sentences("A. B. C.") == ["A", " B", " C", ""]
  {
    var rest := " B. C.";
    ExampleSentences2();
    assert NoTerminator("A") && !IsTerminator(rest[0]);
    SentencesAfterPiece("A", '.', rest);
    assert "A" + ['.'] + rest == "A. B. C.";
  }

  lemma ExampleSentences2()
    ensures Sentences(" B. C.") == [" B", " C", ""]
  {
    ExampleSentences1();
    SentencesAfterPiece(" B", '.', " C.");
    assert " B" + ['.'] + " C." == " B. C.";
  }

  lemma ExampleSentences1()
    ensures Sentences(" C.") == [" C", ""]
  {
    assert Sentences("") == [""];
    SentencesAfterPiece(" C", '.', "");
    assert " C" + ['.'] + "" == " C.";
  }

  lemma ExampleChunks()
    ensures ChunkSentences(["A", " B", " C", ""], 5) == ["A.  B.", "C. ."]
  {
    RunOfFour("A", " B", " C", "", 5);
    ExampleStep1();
    ExampleStep2();
    ExampleStep3();
    ExampleStep4();
  }

  lemma RunOfFour(a: string, b: string, c: string, d: string, size: nat)
    ensures SentenceRun(Empty, [a, b, c, d], size)
         == SentenceStep(SentenceStep(SentenceStep(SentenceStep(Empty, a, size), b, size), c, size), d, size)
  {
    var ss := [a, b, c, d];
    SentenceRunNext(ss, 0, size);
    SentenceRunNext(ss, 1, size);
    SentenceRunNext(ss, 2, size);
    SentenceRunNext(ss, 3, size);
    assert ss[..0] == [] && ss[..4] == ss;
  }

  lemma ExampleStep1()
    ensures SentenceStep(Empty, "A", 5) == Buffer([], "A. ")
  {
    assert [] + "A" + ". " == "A. ";
  }

  lemma ExampleStep2()
    ensures SentenceStep(Buffer([], "A. "), " B", 5) == Buffer([], "A.  B. ")
  {
    assert "A. " + " B" + ". " == "A.  B. ";
  }

  lemma ExampleStep3()
    ensures SentenceStep(Buffer([], "A.  B. "), " C", 5) == Buffer(["A.  B."], " C. ")
  {
    assert |"A.  B. " + " C"| > 5;
    assert TrimStart("A.  B. ") == "A.  B. ";
    assert "A.  B. "[..6] == "A.  B.";
    assert " C" + ". " == " C. ";
  }

  lemma ExampleStep4()
    ensures Flush(SentenceStep(Buffer(["A.  B."], " C. "), "", 5)) == ["A.  B.", "C. ."]
  {
    assert " C. " + "" + ". " == " C. . ";
    assert SentenceStep(Buffer(["A.  B."], " C. "), "", 5) == Buffer(["A.  B."], " C. . ");
    assert " C. . "[1..] == "C. . ";
    assert TrimStart(" C. . ") == "C. . ";
    assert "C. . "[..4] == "C. .";
    assert TrimEnd("C. .") == "C. .";
    assert Trim(" C. . ") == "C. .";
  }
}
