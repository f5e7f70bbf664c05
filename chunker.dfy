/**
 * The sentence/word chunker `ChromaManager._chunk_text`.
 *
 * The text is split into sentences at every run of whitespace that follows `.`, `!` or `?`.
 * Sentences are packed greedily into a pending buffer whose size is the sum of the sentence
 * lengths (the joining spaces are not counted); a sentence longer than the limit is split into
 * words instead, and its word groups are emitted at once, ahead of the still-pending buffer.
 *
 * `Layout` is the specification: a left fold over the sentences that records, for every chunk,
 * the list of units (sentences or words) it was joined from. `ChunkText` is the loop of the
 * source, proved to return the rendering of `Layout`; the lemmas state what the `_chunk_text`
 * docstring (chroma_manager.py:48) promises about `Layout` and where it falls short.
 */
module Chunker {
  import opened Strings

  // ---------------------------------------------------------------------------------------
  // `re.split(r'(?<=[.!?])\s+', text)`

  predicate IsTerminal(c: char)
  {
    c == '.' || c == '!' || c == '?'
  }

  /** A sentence break starts at `k`: the character before it ends a sentence, `t[k]` is a space. */
  predicate BreakAt(t: string, k: nat)
  {
    0 < k < |t| && IsTerminal(t[k - 1]) && IsSpace(t[k])
  }

  /** The first break at or after `k`, or `|t|` when there is none. */
  function NextBreak(t: string, k: nat): (r: nat)
    requires k >= 1
    ensures r == |t| || (k <= r < |t| && BreakAt(t, r))
    ensures forall j :: k <= j < r ==> !BreakAt(t, j)
    decreases |t| - k
  {
    if k >= |t| then |t|
    else if BreakAt(t, k) then k
    else NextBreak(t, k + 1)
  }

  /** The end of the run of whitespace that starts at `i` (the regex's greedy `\s+`). */
  function SpaceRunEnd(t: string, i: nat): (r: nat)
    requires i <= |t|
    ensures i <= r <= |t| && AllSpace(t[i..r]) && (r < |t| ==> !IsSpace(t[r]))
    decreases |t| - i
  {
    if i < |t| && IsSpace(t[i]) then SpaceRunEnd(t, i + 1) else i
  }

  /** The sentences of `text`, as `re.split(r'(?<=[.!?])\s+', text)` returns them. */
  function Sentences(t: string): (r: seq<string>)
    ensures |r| >= 1
    decreases |t|
  {
    var b := NextBreak(t, 1);
    if b >= |t| then [t]
    else
      var e := SpaceRunEnd(t, b);
      [t[..b]] + Sentences(t[e..])
  }

  /** The whitespace runs that `re.split` drops, one between each pair of sentences. */
  function SentenceGaps(t: string): (r: seq<string>)
    ensures |r| == |Sentences(t)| - 1
    decreases |t|
  {
    var b := NextBreak(t, 1);
    if b >= |t| then []
    else
      var e := SpaceRunEnd(t, b);
      [t[b..e]] + SentenceGaps(t[e..])
  }

  /**
   * `re.split(r'(?<=[.!?])\s+', t)` cuts `t` exactly at its breaks: the sentences interleaved
   * with the dropped runs give `t` back, every run is non-empty whitespace and is followed by a
   * non-space (the `\s+` is greedy), and no sentence contains a break of its own.
   */
  lemma {:induction false} SentencesRebuild(t: string)
    ensures Interleave(Sentences(t), SentenceGaps(t)) == t
    ensures forall i :: 0 <= i < |SentenceGaps(t)| ==> |SentenceGaps(t)[i]| > 0 && AllSpace(SentenceGaps(t)[i])
    ensures forall i :: 0 < i < |Sentences(t)| ==> Sentences(t)[i] == [] || !IsSpace(Sentences(t)[i][0])
    ensures forall i, j: nat :: 0 <= i < |Sentences(t)| ==> !BreakAt(Sentences(t)[i], j)
  {
    SentencesInterleave(t);
    SentenceGapsAreSpace(t);
    SentencesStartAfterRun(t);
    SentencesHaveNoBreak(t);
  }

  lemma {:induction false} SentencesInterleave(t: string)
    ensures Interleave(Sentences(t), SentenceGaps(t)) == t
    decreases |t|
  {
    var b := NextBreak(t, 1);
    if b < |t| {
      var e := SpaceRunEnd(t, b);
      SentencesInterleave(t[e..]);
      InterleaveCons(t[..b], t[b..e], Sentences(t[e..]), SentenceGaps(t[e..]));
      SliceJoin(t, b, e);
    }
  }

  lemma {:induction false} SentenceGapsAreSpace(t: string)
    ensures forall i :: 0 <= i < |SentenceGaps(t)| ==> |SentenceGaps(t)[i]| > 0 && AllSpace(SentenceGaps(t)[i])
    decreases |t|
  {
    var b := NextBreak(t, 1);
    if b < |t| {
      var e := SpaceRunEnd(t, b);
      var gaps := SentenceGaps(t[e..]);
      SentenceGapsAreSpace(t[e..]);
      assert SentenceGaps(t)[1..] == gaps;
      forall i | 0 < i < |SentenceGaps(t)|
        ensures |SentenceGaps(t)[i]| > 0 && AllSpace(SentenceGaps(t)[i])
      {
        assert SentenceGaps(t)[i] == gaps[i - 1];
      }
    }
  }

  lemma {:induction false} SentencesStartAfterRun(t: string)
    ensures forall i :: 0 < i < |Sentences(t)| ==> Sentences(t)[i] == [] || !IsSpace(Sentences(t)[i][0])
    decreases |t|
  {
    var b := NextBreak(t, 1);
    if b < |t| {
      var e := SpaceRunEnd(t, b);
      var rest := Sentences(t[e..]);
      SentencesStartAfterRun(t[e..]);
      assert Sentences(t)[1..] == rest;
      forall i | 0 < i < |Sentences(t)| ensures Sentences(t)[i] == [] || !IsSpace(Sentences(t)[i][0]) {
        assert Sentences(t)[i] == rest[i - 1];
        if i == 1 && rest[0] != [] {
          assert rest[0][0] == t[e];
        }
      }
    }
  }

  lemma {:induction false} SentencesHaveNoBreak(t: string)
    ensures forall i, j: nat :: 0 <= i < |Sentences(t)| ==> !BreakAt(Sentences(t)[i], j)
    decreases |t|
  {
    var b := NextBreak(t, 1);
    if b >= |t| {
      forall j: nat ensures !BreakAt(t, j) {
        if 0 < j < |t| {
          assert !BreakAt(t, j);
        }
      }
    } else {
      var e := SpaceRunEnd(t, b);
      var rest := Sentences(t[e..]);
      SentencesHaveNoBreak(t[e..]);
      assert Sentences(t)[1..] == rest;
      forall i, j: nat | 0 <= i < |Sentences(t)| ensures !BreakAt(Sentences(t)[i], j) {
        if i == 0 {
          if 0 < j < b {
            assert !BreakAt(t, j);
          }
        } else {
          assert Sentences(t)[i] == rest[i - 1];
        }
      }
    }
  }

  /** Every sentence but the last is non-empty and ends in `.`, `!` or `?`. */
  lemma {:induction false} SentencesEndInTerminal(t: string)
    ensures forall k :: 0 <= k < |Sentences(t)| - 1 ==>
      |Sentences(t)[k]| > 0 && IsTerminal(Sentences(t)[k][|Sentences(t)[k]| - 1])
    decreases |t|
  {
    var b := NextBreak(t, 1);
    if b < |t| {
      var e := SpaceRunEnd(t, b);
      var rest := Sentences(t[e..]);
      SentencesEndInTerminal(t[e..]);
      assert Sentences(t) == [t[..b]] + rest;
      forall k | 0 <= k < |Sentences(t)| - 1
        ensures |Sentences(t)[k]| > 0 && IsTerminal(Sentences(t)[k][|Sentences(t)[k]| - 1])
      {
        if k > 0 {
          assert Sentences(t)[k] == rest[k - 1];
        }
      }
    }
  }

  // ---------------------------------------------------------------------------------------
  // The chunk layout

  /** One emitted chunk, with the units it joins: sentences from the buffer, or words. */
  datatype Piece = SentenceGroup(units: seq<string>) | WordGroup(units: seq<string>)

  /** `' '.join(units)`, the string the source appends to `chunks`. */
  function Render(p: Piece): string
  {
    Join(p.units, " ")
  }

  /** The chunk strings, one per piece. */
  function RenderAll(ps: seq<Piece>): (r: seq<string>)
    ensures |r| == |ps|
    decreases |ps|
  {
    if ps == [] then [] else RenderAll(ps[..|ps| - 1]) + [Render(ps[|ps| - 1])]
  }

  /** The `k`-th chunk string is the rendering of the `k`-th piece. */
  lemma {:induction false} RenderAllAt(ps: seq<Piece>, k: nat)
    requires k < |ps|
    ensures RenderAll(ps)[k] == Render(ps[k])
    decreases |ps|
  {
    if k < |ps| - 1 {
      RenderAllAt(ps[..|ps| - 1], k);
    }
  }

  lemma {:induction false} RenderAllAppend(a: seq<Piece>, b: seq<Piece>)
    ensures RenderAll(a + b) == RenderAll(a) + RenderAll(b)
    decreases |b|
  {
    if b == [] {
      assert a + b == a;
    } else {
      var b' := b[..|b| - 1];
      assert (a + b)[..|a + b| - 1] == a + b';
      assert (a + b)[|a + b| - 1] == b[|b| - 1];
      RenderAllAppend(a, b');
    }
  }

  /** The sentences that went into the sentence-path chunks, in output order. */
  function SentenceUnits(ps: seq<Piece>): seq<string>
    decreases |ps|
  {
    if ps == [] then []
    else
      var p := ps[|ps| - 1];
      SentenceUnits(ps[..|ps| - 1]) + (if p.SentenceGroup? then p.units else [])
  }

  /** The words that went into the word-path chunks, in output order. */
  function WordUnits(ps: seq<Piece>): seq<string>
    decreases |ps|
  {
    if ps == [] then []
    else
      var p := ps[|ps| - 1];
      WordUnits(ps[..|ps| - 1]) + (if p.WordGroup? then p.units else [])
  }

  lemma {:induction false} SentenceUnitsAppend(a: seq<Piece>, b: seq<Piece>)
    ensures SentenceUnits(a + b) == SentenceUnits(a) + SentenceUnits(b)
    decreases |b|
  {
    if b == [] {
      assert a + b == a;
    } else {
      var b' := b[..|b| - 1];
      var p := b[|b| - 1];
      var u := if p.SentenceGroup? then p.units else [];
      assert (a + b)[..|a + b| - 1] == a + b';
      assert (a + b)[|a + b| - 1] == p;
      SentenceUnitsAppend(a, b');
      assert SentenceUnits(a + b) == (SentenceUnits(a) + SentenceUnits(b')) + u;
      assert SentenceUnits(b) == SentenceUnits(b') + u;
    }
  }

  lemma {:induction false} WordUnitsAppend(a: seq<Piece>, b: seq<Piece>)
    ensures WordUnits(a + b) == WordUnits(a) + WordUnits(b)
    decreases |b|
  {
    if b == [] {
      assert a + b == a;
    } else {
      var b' := b[..|b| - 1];
      var p := b[|b| - 1];
      var u := if p.WordGroup? then p.units else [];
      assert (a + b)[..|a + b| - 1] == a + b';
      assert (a + b)[|a + b| - 1] == p;
      WordUnitsAppend(a, b');
      assert WordUnits(a + b) == (WordUnits(a) + WordUnits(b')) + u;
      assert WordUnits(b) == WordUnits(b') + u;
    }
  }

  lemma {:induction false} UnitsAppend(a: seq<Piece>, b: seq<Piece>)
    ensures SentenceUnits(a + b) == SentenceUnits(a) + SentenceUnits(b)
    ensures WordUnits(a + b) == WordUnits(a) + WordUnits(b)
  {
    SentenceUnitsAppend(a, b);
    WordUnitsAppend(a, b);
  }

  /** The state of the inner loop over the words of an oversized sentence. */
  datatype WordAcc = WordAcc(done: seq<Piece>, current: seq<string>, size: int)

  /** One turn of the inner loop: each word costs its length plus one for a space. */
  function WordStep(acc: WordAcc, w: string, maxSize: int): WordAcc
  {
    var wordSize := |w| + 1;
    if acc.size + wordSize > maxSize then WordAcc(acc.done + [WordGroup(acc.current)], [w], wordSize)
    else WordAcc(acc.done, acc.current + [w], acc.size + wordSize)
  }

  /** The inner loop after `words`. */
  function WordFold(words: seq<string>, maxSize: int): WordAcc
    decreases |words|
  {
    if words == [] then WordAcc([], [], 0)
    else WordStep(WordFold(words[..|words| - 1], maxSize), words[|words| - 1], maxSize)
  }

  /** The chunks the word path emits for an oversized sentence with these words. */
  function WordGroups(words: seq<string>, maxSize: int): seq<Piece>
  {
    var acc := WordFold(words, maxSize);
    if acc.current != [] then acc.done + [WordGroup(acc.current)] else acc.done
  }

  /** The state of the outer loop: emitted chunks, the pending sentence buffer and its size. */
  datatype Acc = Acc(done: seq<Piece>, pending: seq<string>, size: int)

  function Step(acc: Acc, s: string, maxSize: int): Acc
  {
    if |s| > maxSize then Acc(acc.done + WordGroups(Words(s), maxSize), acc.pending, acc.size)
    else if acc.size + |s| > maxSize then Acc(acc.done + [SentenceGroup(acc.pending)], [s], |s|)
    else Acc(acc.done, acc.pending + [s], acc.size + |s|)
  }

  function Fold(sentences: seq<string>, maxSize: int): Acc
    decreases |sentences|
  {
    if sentences == [] then Acc([], [], 0)
    else Step(Fold(sentences[..|sentences| - 1], maxSize), sentences[|sentences| - 1], maxSize)
  }

  /** All chunks, the still-pending buffer flushed last, as `_chunk_text` lays them out. */
  function Layout(sentences: seq<string>, maxSize: int): seq<Piece>
  {
    var acc := Fold(sentences, maxSize);
    if acc.pending != [] then acc.done + [SentenceGroup(acc.pending)] else acc.done
  }

  // ---------------------------------------------------------------------------------------
  // The method

  /** The inner loop of `_chunk_text` over the words of one oversized sentence. */
  method WordChunks(words: seq<string>, maxChunkSize: int) returns (chunks: seq<string>)
    ensures chunks == RenderAll(WordGroups(words, maxChunkSize))
  {
    chunks := [];
    var currentWordChunk: seq<string> := [];
    var currentWordSize := 0;
    ghost var pieces: seq<Piece> := [];
    for j := 0 to |words|
      invariant WordFold(words[..j], maxChunkSize).done == pieces
      invariant WordFold(words[..j], maxChunkSize).current == currentWordChunk
      invariant WordFold(words[..j], maxChunkSize).size == currentWordSize
      invariant chunks == RenderAll(pieces)
    {
      var word := words[j];
      assert words[..j + 1][..j] == words[..j];
      var wordSize := |word| + 1;
      if currentWordSize + wordSize > maxChunkSize {
        RenderAllAppend(pieces, [WordGroup(currentWordChunk)]);
        chunks := chunks + [Join(currentWordChunk, " ")];
        pieces := pieces + [WordGroup(currentWordChunk)];
        currentWordChunk := [word];
        currentWordSize := wordSize;
      } else {
        currentWordChunk := currentWordChunk + [word];
        currentWordSize := currentWordSize + wordSize;
      }
    }
    assert words[..|words|] == words;
    if currentWordChunk != [] {
      RenderAllAppend(pieces, [WordGroup(currentWordChunk)]);
      chunks := chunks + [Join(currentWordChunk, " ")];
    }
  }

  /** `ChromaManager._chunk_text(text, max_chunk_size)`. */
  method ChunkText(text: string, maxChunkSize: int) returns (chunks: seq<string>)
    ensures chunks == RenderAll(Layout(Sentences(text), maxChunkSize))
  {
    var sentences := Sentences(text);
    chunks := PackSentences(sentences, maxChunkSize);
  }

  /** The sentence loop of `_chunk_text` and the final flush of the pending buffer. */
  method PackSentences(sentences: seq<string>, maxChunkSize: int) returns (chunks: seq<string>)
    ensures chunks == RenderAll(Layout(sentences, maxChunkSize))
  {
    chunks := [];
    var currentChunk: seq<string> := [];
    var currentSize := 0;
    ghost var pieces: seq<Piece> := [];

    for i := 0 to |sentences|
      invariant Fold(sentences[..i], maxChunkSize).done == pieces
      invariant Fold(sentences[..i], maxChunkSize).pending == currentChunk
      invariant Fold(sentences[..i], maxChunkSize).size == currentSize
      invariant chunks == RenderAll(pieces)
    {
      var sentence := sentences[i];
      assert sentences[..i + 1][..i] == sentences[..i];
      var sentenceSize := |sentence|;

      if sentenceSize > maxChunkSize {
        var words := Words(sentence);
        var wordChunks := WordChunks(words, maxChunkSize);
        RenderAllAppend(pieces, WordGroups(words, maxChunkSize));
        chunks := chunks + wordChunks;
        pieces := pieces + WordGroups(words, maxChunkSize);
        continue;
      }

      if currentSize + sentenceSize > maxChunkSize {
        RenderAllAppend(pieces, [SentenceGroup(currentChunk)]);
        chunks := chunks + [Join(currentChunk, " ")];
        pieces := pieces + [SentenceGroup(currentChunk)];
        currentChunk := [sentence];
        currentSize := sentenceSize;
      } else {
        currentChunk := currentChunk + [sentence];
        currentSize := currentSize + sentenceSize;
      }
    }
    assert sentences[..|sentences|] == sentences;

    if currentChunk != [] {
      RenderAllAppend(pieces, [SentenceGroup(currentChunk)]);
      chunks := chunks + [Join(currentChunk, " ")];
    }
  }

  // ---------------------------------------------------------------------------------------
  // Properties

  /** The sentences short enough for the sentence path, in input order. */
  function ShortSentences(sentences: seq<string>, maxSize: int): seq<string>
    decreases |sentences|
  {
    if sentences == [] then []
    else
      var s := sentences[|sentences| - 1];
      ShortSentences(sentences[..|sentences| - 1], maxSize) + (if |s| <= maxSize then [s] else [])
  }

  /** The words of the oversized sentences, in input order. */
  function LongSentenceWords(sentences: seq<string>, maxSize: int): seq<string>
    decreases |sentences|
  {
    if sentences == [] then []
    else
      var s := sentences[|sentences| - 1];
      LongSentenceWords(sentences[..|sentences| - 1], maxSize) + (if |s| > maxSize then Words(s) else [])
  }

  /**
   * The size bound each kind of chunk keeps: a sentence group is non-empty and its sentences'
   * lengths sum to at most the limit; a word group of two or more words costs at most the limit,
   * counting one space per word.
   */
  ghost predicate Fits(p: Piece, maxSize: int)
  {
    match p
    case SentenceGroup(units) => |units| > 0 && Size(units) <= maxSize
    case WordGroup(units) => |units| >= 2 ==> Size(units) + |units| <= maxSize
  }

  /** What holds of the inner loop's state after `words`. */
  ghost predicate WordAccInv(acc: WordAcc, words: seq<string>, maxSize: int)
  {
    && acc.size == Size(acc.current) + |acc.current|
    && (acc.current == [] <==> words == [])
    && (|acc.current| >= 2 ==> acc.size <= maxSize)
    && (words == [] ==> acc.done == [])
    && (|words| > 0 && |words[0]| + 1 > maxSize ==> |acc.done| > 0)
    && (forall k :: 0 <= k < |acc.done| ==> acc.done[k].WordGroup? && Fits(acc.done[k], maxSize))
    && (forall k :: 0 <= k < |acc.done| ==>
          (acc.done[k].units == [] <==> k == 0 && |words| > 0 && |words[0]| + 1 > maxSize))
    && WordUnits(acc.done) + acc.current == words
    && SentenceUnits(acc.done) == []
  }

  lemma {:induction false} WordFlushKeeps(acc: WordAcc, words: seq<string>, w: string, maxSize: int)
    requires WordAccInv(acc, words, maxSize)
    requires acc.size + |w| + 1 > maxSize
    ensures WordAccInv(WordStep(acc, w, maxSize), words + [w], maxSize)
  {
    var p := WordGroup(acc.current);
    var done := acc.done + [p];
    UnitsAppend(acc.done, [p]);
    assert WordUnits([p]) == acc.current by { assert [p][..0] == []; }
    assert SentenceUnits([p]) == [] by { assert [p][..0] == []; }
    assert words != [] ==> (words + [w])[0] == words[0];
    assert words == [] ==> words + [w] == [w];
    assert Size([w]) == |w|;
    forall k | 0 <= k < |done|
      ensures done[k].WordGroup? && Fits(done[k], maxSize)
      ensures done[k].units == [] <==> k == 0 && |words + [w]| > 0 && |(words + [w])[0]| + 1 > maxSize
    {
      if k < |acc.done| {
        assert done[k] == acc.done[k];
      }
    }
  }

  lemma {:induction false} WordAppendKeeps(acc: WordAcc, words: seq<string>, w: string, maxSize: int)
    requires WordAccInv(acc, words, maxSize)
    requires acc.size + |w| + 1 <= maxSize
    ensures WordAccInv(WordStep(acc, w, maxSize), words + [w], maxSize)
  {
    SizeAppend(acc.current, w);
    assert acc.current + [w] != [];
    assert words != [] ==> (words + [w])[0] == words[0];
    assert words == [] ==> words + [w] == [w];
  }

  /** The invariant after one more word, restated for the whole word list. */
  lemma {:induction false} WordStepInvariant(words: seq<string>, maxSize: int)
    requires words != []
    requires var init := words[..|words| - 1];
      WordAccInv(WordStep(WordFold(init, maxSize), words[|words| - 1], maxSize), init + [words[|words| - 1]], maxSize)
    ensures WordAccInv(WordFold(words, maxSize), words, maxSize)
  {
    assert words[..|words| - 1] + [words[|words| - 1]] == words;
  }

  lemma {:induction false} WordFoldInvariant(words: seq<string>, maxSize: int)
    ensures WordAccInv(WordFold(words, maxSize), words, maxSize)
    decreases |words|
  {
    if words != [] {
      var init := words[..|words| - 1];
      var w := words[|words| - 1];
      var acc := WordFold(init, maxSize);
      WordFoldInvariant(init, maxSize);
      if acc.size + |w| + 1 > maxSize {
        WordFlushKeeps(acc, init, w, maxSize);
      } else {
        WordAppendKeeps(acc, init, w, maxSize);
      }
      WordStepInvariant(words, maxSize);
    }
  }

  /**
   * The word path for an oversized sentence: every group fits or is a single word; a group is
   * empty only if it is the first and the first word alone costs more than the limit; the groups
   * hold exactly the sentence's words, in order; no words, no chunks.
   */
  lemma {:induction false} WordGroupsProperties(words: seq<string>, maxSize: int)
    ensures var g := WordGroups(words, maxSize);
      && (forall k :: 0 <= k < |g| ==> g[k].WordGroup? && Fits(g[k], maxSize))
      && (forall k :: 0 <= k < |g| ==>
            (g[k].units == [] <==> k == 0 && |words| > 0 && |words[0]| + 1 > maxSize))
      && WordUnits(g) == words
      && SentenceUnits(g) == []
      && (|g| == 0 <==> words == [])
  {
    WordFoldInvariant(words, maxSize);
    var acc := WordFold(words, maxSize);
    if acc.current != [] {
      var p := WordGroup(acc.current);
      UnitsAppend(acc.done, [p]);
      assert WordUnits([p]) == acc.current by { assert [p][..0] == []; }
      assert SentenceUnits([p]) == [] by { assert [p][..0] == []; }
    }
  }

  /** An oversized sentence whose first word does not fit produces an empty chunk first. */
  lemma {:induction false} EmptyFirstWordChunk(words: seq<string>, maxSize: int)
    requires |words| > 0 && |words[0]| + 1 > maxSize
    ensures |RenderAll(WordGroups(words, maxSize))| > 0
    ensures RenderAll(WordGroups(words, maxSize))[0] == ""
  {
    WordGroupsProperties(words, maxSize);
    RenderAllAt(WordGroups(words, maxSize), 0);
  }

  /** What holds of the outer loop's state after `sentences`. */
  ghost predicate AccInv(acc: Acc, sentences: seq<string>, maxSize: int)
  {
    && acc.size == Size(acc.pending)
    && (acc.pending != [] ==> acc.size <= maxSize)
    && (forall k :: 0 <= k < |acc.done| ==> Fits(acc.done[k], maxSize))
    && SentenceUnits(acc.done) + acc.pending == ShortSentences(sentences, maxSize)
    && WordUnits(acc.done) == LongSentenceWords(sentences, maxSize)
  }

  /** Emitting the word groups of an oversized sentence moves its words to the word units. */
  lemma {:induction false} LongSentenceUnits(done: seq<Piece>, g: seq<Piece>, pending: seq<string>,
                          sentences: seq<string>, maxSize: int)
    requires sentences != [] && |sentences[|sentences| - 1]| > maxSize
    requires SentenceUnits(done) + pending == ShortSentences(sentences[..|sentences| - 1], maxSize)
    requires WordUnits(done) == LongSentenceWords(sentences[..|sentences| - 1], maxSize)
    requires SentenceUnits(g) == [] && WordUnits(g) == Words(sentences[|sentences| - 1])
    ensures SentenceUnits(done + g) + pending == ShortSentences(sentences, maxSize)
    ensures WordUnits(done + g) == LongSentenceWords(sentences, maxSize)
  {
    UnitsAppend(done, g);
    assert SentenceUnits(done) + SentenceUnits(g) == SentenceUnits(done);
  }

  /** Pieces that all fit still all fit once concatenated. */
  lemma {:induction false} AllFitAppend(a: seq<Piece>, b: seq<Piece>, maxSize: int)
    requires forall k :: 0 <= k < |a| ==> Fits(a[k], maxSize)
    requires forall k :: 0 <= k < |b| ==> Fits(b[k], maxSize)
    ensures forall k :: 0 <= k < |a + b| ==> Fits((a + b)[k], maxSize)
  {
    forall k | 0 <= k < |a + b| ensures Fits((a + b)[k], maxSize) {
      if k >= |a| {
        assert (a + b)[k] == b[k - |a|];
      } else {
        assert (a + b)[k] == a[k];
      }
    }
  }

  lemma {:induction false} LongSentenceKeeps(sentences: seq<string>, maxSize: int)
    requires sentences != [] && |sentences[|sentences| - 1]| > maxSize
    requires AccInv(Fold(sentences[..|sentences| - 1], maxSize), sentences[..|sentences| - 1], maxSize)
    ensures AccInv(Fold(sentences, maxSize), sentences, maxSize)
  {
    var s := sentences[|sentences| - 1];
    var acc := Fold(sentences[..|sentences| - 1], maxSize);
    var g := WordGroups(Words(s), maxSize);
    assert Fold(sentences, maxSize) == Acc(acc.done + g, acc.pending, acc.size);
    WordGroupsProperties(Words(s), maxSize);
    LongSentenceUnits(acc.done, g, acc.pending, sentences, maxSize);
    AllFitAppend(acc.done, g, maxSize);
  }

  lemma {:induction false} FlushKeeps(sentences: seq<string>, maxSize: int)
    requires sentences != [] && |sentences[|sentences| - 1]| <= maxSize
    requires AccInv(Fold(sentences[..|sentences| - 1], maxSize), sentences[..|sentences| - 1], maxSize)
    requires Fold(sentences[..|sentences| - 1], maxSize).size + |sentences[|sentences| - 1]| > maxSize
    ensures AccInv(Fold(sentences, maxSize), sentences, maxSize)
  {
    var s := sentences[|sentences| - 1];
    var acc := Fold(sentences[..|sentences| - 1], maxSize);
    var p := SentenceGroup(acc.pending);
    var done := acc.done + [p];
    assert Fold(sentences, maxSize) == Acc(done, [s], |s|);
    assert acc.pending != [];
    UnitsAppend(acc.done, [p]);
    assert SentenceUnits([p]) == acc.pending by { assert [p][..0] == []; }
    assert WordUnits([p]) == [] by { assert [p][..0] == []; }
    assert Size([s]) == |s|;
    forall k | 0 <= k < |done| ensures Fits(done[k], maxSize) {
      if k < |acc.done| {
        assert done[k] == acc.done[k];
      }
    }
  }

  lemma {:induction false} AppendKeeps(sentences: seq<string>, maxSize: int)
    requires sentences != [] && |sentences[|sentences| - 1]| <= maxSize
    requires AccInv(Fold(sentences[..|sentences| - 1], maxSize), sentences[..|sentences| - 1], maxSize)
    requires Fold(sentences[..|sentences| - 1], maxSize).size + |sentences[|sentences| - 1]| <= maxSize
    ensures AccInv(Fold(sentences, maxSize), sentences, maxSize)
  {
    var s := sentences[|sentences| - 1];
    var acc := Fold(sentences[..|sentences| - 1], maxSize);
    assert Fold(sentences, maxSize) == Acc(acc.done, acc.pending + [s], acc.size + |s|);
    SizeAppend(acc.pending, s);
  }

  lemma {:induction false} FoldInvariant(sentences: seq<string>, maxSize: int)
    ensures AccInv(Fold(sentences, maxSize), sentences, maxSize)
    decreases |sentences|
  {
    if sentences != [] {
      var init := sentences[..|sentences| - 1];
      var s := sentences[|sentences| - 1];
      FoldInvariant(init, maxSize);
      if |s| > maxSize {
        LongSentenceKeeps(sentences, maxSize);
      } else if Fold(init, maxSize).size + |s| > maxSize {
        FlushKeeps(sentences, maxSize);
      } else {
        AppendKeeps(sentences, maxSize);
      }
    }
  }

  /** Every chunk of the layout keeps its kind's size bound (see `Fits`). */
  lemma {:induction false} LayoutFits(sentences: seq<string>, maxSize: int)
    ensures forall k :: 0 <= k < |Layout(sentences, maxSize)| ==> Fits(Layout(sentences, maxSize)[k], maxSize)
  {
    FoldInvariant(sentences, maxSize);
  }

  /**
   * Conservation and order: the sentence-path chunks hold exactly the sentences no longer than
   * the limit, each once and in input order; the word-path chunks hold exactly the words of the
   * oversized sentences, in order.
   */
  lemma {:induction false} LayoutConserves(sentences: seq<string>, maxSize: int)
    ensures SentenceUnits(Layout(sentences, maxSize)) == ShortSentences(sentences, maxSize)
    ensures WordUnits(Layout(sentences, maxSize)) == LongSentenceWords(sentences, maxSize)
  {
    FoldInvariant(sentences, maxSize);
    var acc := Fold(sentences, maxSize);
    if acc.pending != [] {
      var p := SentenceGroup(acc.pending);
      UnitsAppend(acc.done, [p]);
      assert SentenceUnits([p]) == acc.pending by { assert [p][..0] == []; }
      assert WordUnits([p]) == [] by { assert [p][..0] == []; }
    }
  }

  /**
   * Sentence-path bound: a chunk joined from k sentences is as long as their lengths plus k - 1
   * spaces, so it can exceed the limit by up to k - 1 characters.
   */
  lemma {:induction false} SentenceChunkLength(sentences: seq<string>, maxSize: int, k: nat)
    requires k < |Layout(sentences, maxSize)| && Layout(sentences, maxSize)[k].SentenceGroup?
    ensures var units := Layout(sentences, maxSize)[k].units;
      && |units| > 0
      && |RenderAll(Layout(sentences, maxSize))[k]| == Size(units) + |units| - 1
      && |RenderAll(Layout(sentences, maxSize))[k]| <= maxSize + |units| - 1
  {
    LayoutFits(sentences, maxSize);
    RenderAllAt(Layout(sentences, maxSize), k);
    JoinLength(Layout(sentences, maxSize)[k].units, " ");
  }

  /** Word-path bound: a word chunk is empty, a single word, or at most `maxSize - 1` long. */
  lemma {:induction false} WordChunkLength(sentences: seq<string>, maxSize: int, k: nat)
    requires k < |Layout(sentences, maxSize)| && Layout(sentences, maxSize)[k].WordGroup?
    ensures var units := Layout(sentences, maxSize)[k].units;
      |units| <= 1 || |RenderAll(Layout(sentences, maxSize))[k]| <= maxSize - 1
  {
    LayoutFits(sentences, maxSize);
    RenderAllAt(Layout(sentences, maxSize), k);
    WordPieceLength(Layout(sentences, maxSize)[k], maxSize);
  }

  /** A fitting word chunk is its words plus one space per gap, and short of the limit when it has two. */
  lemma {:induction false} WordPieceLength(p: Piece, maxSize: int)
    requires p.WordGroup? && Fits(p, maxSize)
    ensures |p.units| > 0 ==> |Render(p)| == Size(p.units) + |p.units| - 1
    ensures |p.units| <= 1 || |Render(p)| <= maxSize - 1
  {
    if |p.units| > 0 {
      JoinLength(p.units, " ");
    }
  }

  /**
   * The word groups of an oversized sentence are emitted before the sentences still pending
   * in the buffer, so they come out ahead of sentences that preceded them in the text.
   */
  lemma {:induction false} WordGroupsOvertakePending(sentences: seq<string>, maxSize: int)
    requires sentences != [] && |sentences[|sentences| - 1]| > maxSize
    requires Fold(sentences[..|sentences| - 1], maxSize).pending != []
    ensures var before := Fold(sentences[..|sentences| - 1], maxSize);
      Layout(sentences, maxSize)
        == before.done + WordGroups(Words(sentences[|sentences| - 1]), maxSize) + [SentenceGroup(before.pending)]
  {
  }

  /** The smallest case: a short sentence followed by an oversized one comes out in reverse order. */
  lemma {:induction false} ShortThenLong(s1: string, s2: string, maxSize: int)
    requires |s1| <= maxSize < |s2|
    ensures Layout([s1, s2], maxSize) == WordGroups(Words(s2), maxSize) + [SentenceGroup([s1])]
  {
    FoldPair(s1, s2, maxSize);
    assert [s1, s2][..1] == [s1];
    WordGroupsOvertakePending([s1, s2], maxSize);
    assert [] + WordGroups(Words(s2), maxSize) == WordGroups(Words(s2), maxSize);
  }

  /** The fold over two sentences, the first of which fits. */
  lemma {:induction false} FoldPair(s1: string, s2: string, maxSize: int)
    requires |s1| <= maxSize
    ensures Fold([s1], maxSize) == Acc([], [s1], |s1|)
    ensures Fold([s1, s2], maxSize) == Step(Acc([], [s1], |s1|), s2, maxSize)
  {
    assert [s1][..0] == [];
    assert Fold([s1], maxSize) == Step(Acc([], [], 0), s1, maxSize);
    assert [s1, s2][..1] == [s1];
  }

  /** The size accounting ignores the joining space: two sentences filling the limit exactly give a chunk one longer. */
  lemma {:induction false} SeparatorNotCounted(s1: string, s2: string, maxSize: int)
    requires |s1| + |s2| == maxSize
    ensures RenderAll(Layout([s1, s2], maxSize)) == [s1 + " " + s2]
    ensures |s1 + " " + s2| == maxSize + 1
  {
    FoldPair(s1, s2, maxSize);
    assert Fold([s1, s2], maxSize) == Acc([], [s1, s2], maxSize);
    var p := SentenceGroup([s1, s2]);
    assert Layout([s1, s2], maxSize) == [p];
    assert Join([s1, s2], " ") == s1 + " " + Join([s2], " ") by {
      assert [s1, s2][1..] == [s2];
    }
    assert Render(p) == s1 + " " + s2;
    assert [p][..0] == [];
  }

  /** An oversized sentence made only of whitespace leaves no chunk at all. */
  lemma {:induction false} BlankSentenceVanishes(s: string, maxSize: int)
    requires |s| > maxSize && Words(s) == []
    ensures Layout([s], maxSize) == []
  {
    assert [s][..0] == [];
    assert Fold([s], maxSize) == Step(Acc([], [], 0), s, maxSize);
    WordGroupsProperties(Words(s), maxSize);
    assert WordGroups(Words(s), maxSize) == [];
  }
}
