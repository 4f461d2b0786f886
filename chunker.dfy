/**
 * `smart_chunk_text`: greedy packing of consecutive sentences into chunks
 * bounded by a word budget, never splitting a sentence. The sentence
 * segmenter (spaCy) is replaced by its output, the sentence sequence.
 */
module Chunker {
  import opened Text
  import opened Seqs

  // ---------------------------------------------------------------------------
  // The reference definition

  /**
   * How many of the leading sentences of `rest` can still be added to a
   * non-empty chunk that already holds `used` words.
   */
  function FitCount(rest: seq<string>, used: int, maxWords: int): (n: nat)
    ensures n <= |rest|
    ensures n > 0 ==> used + SumWords(rest[..n]) <= maxWords
    ensures n < |rest| ==> used + SumWords(rest[..n]) + WordCount(rest[n]) > maxWords
  {
    if rest == [] || used + WordCount(rest[0]) > maxWords then 0
    else
      var n := 1 + FitCount(rest[1..], used + WordCount(rest[0]), maxWords);
      assert rest[..n][1..] == rest[1..][..n - 1];
      n
  }

  /** The groups of sentences the greedy chunker forms, first group first. */
  function Chunk(sentences: seq<string>, maxWords: int): (groups: seq<seq<string>>)
    decreases |sentences|
  {
    if sentences == [] then []
    else
      var n := 1 + FitCount(sentences[1..], WordCount(sentences[0]), maxWords);
      [sentences[..n]] + Chunk(sentences[n..], maxWords)
  }

  /** The chunk strings: each group's sentences joined by a single space. */
  function ChunkTexts(groups: seq<seq<string>>): (texts: seq<string>)
    ensures |texts| == |groups|
    ensures forall i :: 0 <= i < |groups| ==> texts[i] == Join(groups[i], " ")
  {
    seq(|groups|, i requires 0 <= i < |groups| => Join(groups[i], " "))
  }

  // ---------------------------------------------------------------------------
  // The declarative description

  predicate NoEmptyGroup(groups: seq<seq<string>>) {
    forall i :: 0 <= i < |groups| ==> groups[i] != []
  }

  /** Every group of two or more sentences fits the budget. */
  predicate WithinBound(groups: seq<seq<string>>, maxWords: int) {
    forall i :: 0 <= i < |groups| && |groups[i]| >= 2 ==> SumWords(groups[i]) <= maxWords
  }

  /** Group `i` was closed only because the first sentence of group `i + 1` would not fit. */
  predicate ClosedBefore(groups: seq<seq<string>>, i: nat, maxWords: int)
    requires i + 1 < |groups|
  {
    groups[i + 1] != [] && SumWords(groups[i]) + WordCount(groups[i + 1][0]) > maxWords
  }

  /** Every group but the last was closed because the next sentence would not fit. */
  predicate ClosedGreedily(groups: seq<seq<string>>, maxWords: int) {
    forall i: nat :: i + 1 < |groups| ==> ClosedBefore(groups, i, maxWords)
  }

  /** The rules each group obeys, whatever sentences they hold. */
  predicate WellClosed(groups: seq<seq<string>>, maxWords: int) {
    NoEmptyGroup(groups) && WithinBound(groups, maxWords) && ClosedGreedily(groups, maxWords)
  }

  /** `groups` partitions `sentences` the way the greedy loop does. */
  predicate GreedyPartition(sentences: seq<string>, groups: seq<seq<string>>, maxWords: int) {
    Flatten(groups) == sentences && WellClosed(groups, maxWords)
  }

  // ---------------------------------------------------------------------------
  // Facts about sums of word counts

  lemma {:induction false} SumWordsConcat(a: seq<string>, b: seq<string>)
    ensures SumWords(a + b) == SumWords(a) + SumWords(b)
  {
    if a == [] {
      assert a + b == b;
    } else {
      assert (a + b)[1..] == a[1..] + b;
      SumWordsConcat(a[1..], b);
    }
  }

  lemma SumWordsPrefix(s: seq<string>, i: nat, j: nat)
    requires i <= j <= |s|
    ensures SumWords(s[..i]) <= SumWords(s[..j])
  {
    assert s[..j] == s[..i] + s[i..j];
    SumWordsConcat(s[..i], s[i..j]);
  }

  // ---------------------------------------------------------------------------
  // Building and taking apart greedy partitions

  /** A greedy partition with no empty group flattens to nothing only when it is empty. */
  lemma FlattenNonEmpty(groups: seq<seq<string>>)
    requires NoEmptyGroup(groups) && groups != []
    ensures Flatten(groups) != [] && Flatten(groups)[0] == groups[0][0]
  {
    assert Flatten(groups) == groups[0] + Flatten(groups[1..]);
  }

  /** Putting a group in front of well-closed groups, when the greedy rules allow it. */
  lemma WellClosedCons(g: seq<string>, rest: seq<seq<string>>, maxWords: int)
    requires g != [] && WellClosed(rest, maxWords)
    requires |g| >= 2 ==> SumWords(g) <= maxWords
    requires rest != [] ==> SumWords(g) + WordCount(rest[0][0]) > maxWords
    ensures WellClosed([g] + rest, maxWords)
  {
    var groups := [g] + rest;
    forall i | 0 <= i < |groups| && |groups[i]| >= 2 ensures SumWords(groups[i]) <= maxWords {
      if i > 0 { assert groups[i] == rest[i - 1]; }
    }
    forall i: nat | i + 1 < |groups| ensures ClosedBefore(groups, i, maxWords) {
      if i > 0 { assert ClosedBefore(rest, i - 1, maxWords); }
    }
  }

  /** Putting a group after well-closed groups, when the greedy rules allow it. */
  lemma WellClosedSnoc(closed: seq<seq<string>>, g: seq<string>, maxWords: int)
    requires g != [] && WellClosed(closed, maxWords)
    requires |g| >= 2 ==> SumWords(g) <= maxWords
    requires closed != [] ==> SumWords(closed[|closed| - 1]) + WordCount(g[0]) > maxWords
    ensures WellClosed(closed + [g], maxWords)
  {
    var groups := closed + [g];
    forall i | 0 <= i < |groups| && |groups[i]| >= 2 ensures SumWords(groups[i]) <= maxWords {
      if i < |closed| { assert groups[i] == closed[i]; }
    }
    forall i: nat | i + 1 < |groups| ensures ClosedBefore(groups, i, maxWords) {
      if i + 1 < |closed| { assert ClosedBefore(closed, i, maxWords); }
    }
  }

  /** Dropping the first group of a greedy partition leaves a greedy partition of the rest. */
  lemma GreedyTail(sentences: seq<string>, groups: seq<seq<string>>, maxWords: int)
    requires GreedyPartition(sentences, groups, maxWords) && groups != []
    ensures |groups[0]| <= |sentences| && sentences[..|groups[0]|] == groups[0]
    ensures GreedyPartition(sentences[|groups[0]|..], groups[1..], maxWords)
  {
    assert Flatten(groups) == groups[0] + Flatten(groups[1..]);
    var tl := groups[1..];
    forall i: nat | i + 1 < |tl| ensures ClosedBefore(tl, i, maxWords) {
      assert ClosedBefore(groups, i + 1, maxWords);
    }
    forall i | 0 <= i < |tl| && |tl[i]| >= 2 ensures SumWords(tl[i]) <= maxWords {
      assert tl[i] == groups[i + 1];
    }
  }

  // ---------------------------------------------------------------------------
  // The reference definition is a greedy partition, and the only one

  /** The first group of `Chunk` and what follows it. */
  lemma ChunkHead(sentences: seq<string>, maxWords: int)
    requires sentences != []
    ensures var groups := Chunk(sentences, maxWords);
      var n := |groups[0]|;
      && groups != [] && 1 <= n <= |sentences| && groups[0] == sentences[..n]
      && groups[1..] == Chunk(sentences[n..], maxWords)
      && (n >= 2 ==> SumWords(groups[0]) <= maxWords)
      && (n < |sentences| ==> SumWords(groups[0]) + WordCount(sentences[n]) > maxWords)
  {
    var tail := sentences[1..];
    var k := FitCount(tail, WordCount(sentences[0]), maxWords);
    var g := sentences[..1 + k];
    assert g[1..] == tail[..k];
    assert SumWords(g) == WordCount(sentences[0]) + SumWords(tail[..k]);
    if k < |tail| {
      assert tail[k] == sentences[1 + k];
    }
  }

  lemma {:induction false} ChunkIsGreedy(sentences: seq<string>, maxWords: int)
    decreases |sentences|
    ensures GreedyPartition(sentences, Chunk(sentences, maxWords), maxWords)
  {
    if sentences != [] {
      var groups := Chunk(sentences, maxWords);
      ChunkHead(sentences, maxWords);
      var n := |groups[0]|;
      var rest := Chunk(sentences[n..], maxWords);
      ChunkIsGreedy(sentences[n..], maxWords);
      if rest != [] {
        FlattenNonEmpty(rest);
      }
      WellClosedCons(groups[0], rest, maxWords);
      assert groups == [groups[0]] + rest;
      assert Flatten(groups) == groups[0] + Flatten(rest);
      assert sentences == sentences[..n] + sentences[n..];
    }
  }

  /** In two greedy partitions, the first group of one is never shorter than that of the other. */
  lemma FirstGroupNotShorter(sentences: seq<string>, g1: seq<seq<string>>, g2: seq<seq<string>>, maxWords: int)
    requires GreedyPartition(sentences, g1, maxWords) && g1 != []
    requires GreedyPartition(sentences, g2, maxWords) && g2 != []
    ensures |g1[0]| >= |g2[0]|
  {
    GreedyTail(sentences, g1, maxWords);
    GreedyTail(sentences, g2, maxWords);
    var a, b := |g1[0]|, |g2[0]|;
    if a < b {
      // g1 closed its first group before sentence a, which g2 shows would have fit
      assert SumWords(sentences[..b]) <= maxWords by {
        assert g2[0] == sentences[..b];
      }
      var tl := g1[1..];
      assert Flatten(tl) == sentences[a..];
      assert tl != [];
      FlattenNonEmpty(tl);
      assert ClosedBefore(g1, 0, maxWords);
      assert g1[1] == tl[0];
      assert SumWords(sentences[..a]) + WordCount(sentences[a]) > maxWords;
      assert sentences[..a + 1] == sentences[..a] + [sentences[a]];
      SumWordsAppend(sentences[..a], sentences[a]);
      SumWordsPrefix(sentences, a + 1, b);
      assert false;
    }
  }

  /** The greedy rules determine the partition: two greedy partitions of one sentence sequence are equal. */
  lemma {:induction false} GreedyPartitionUnique(sentences: seq<string>, g1: seq<seq<string>>, g2: seq<seq<string>>, maxWords: int)
    requires GreedyPartition(sentences, g1, maxWords)
    requires GreedyPartition(sentences, g2, maxWords)
    decreases |sentences|
    ensures g1 == g2
  {
    if g1 == [] || g2 == [] {
      if g1 != [] { FlattenNonEmpty(g1); }
      if g2 != [] { FlattenNonEmpty(g2); }
    } else {
      GreedyTail(sentences, g1, maxWords);
      GreedyTail(sentences, g2, maxWords);
      FirstGroupNotShorter(sentences, g1, g2, maxWords);
      FirstGroupNotShorter(sentences, g2, g1, maxWords);
      var a := |g1[0]|;
      assert a > 0;
      GreedyPartitionUnique(sentences[a..], g1[1..], g2[1..], maxWords);
      assert g1 == [g1[0]] + g1[1..];
      assert g2 == [g2[0]] + g2[1..];
    }
  }

  // ---------------------------------------------------------------------------
  // The loop

  lemma ChunkTextsSnoc(groups: seq<seq<string>>, g: seq<string>)
    ensures ChunkTexts(groups + [g]) == ChunkTexts(groups) + [Join(g, " ")]
  {
  }

  /**
   * The loop's picture after reading `i` sentences: the closed groups and the
   * current group hold exactly those sentences and obey the greedy rules.
   */
  predicate Progress(sentences: seq<string>, i: nat, closed: seq<seq<string>>, current: seq<string>, maxWords: int) {
    && i <= |sentences|
    && Flatten(closed) + current == sentences[..i]
    && (current == [] <==> i == 0)
    && (i == 0 ==> closed == [])
    && WellClosed(closed, maxWords)
    && (|current| >= 2 ==> SumWords(current) <= maxWords)
    && (closed != [] && current != [] ==> SumWords(closed[|closed| - 1]) + WordCount(current[0]) > maxWords)
  }

  /** The next sentence fits (or the current group is empty): it joins the current group. */
  lemma Extend(sentences: seq<string>, i: nat, closed: seq<seq<string>>, current: seq<string>, maxWords: int)
    requires Progress(sentences, i, closed, current, maxWords) && i < |sentences|
    requires current == [] || SumWords(current) + WordCount(sentences[i]) <= maxWords
    ensures Progress(sentences, i + 1, closed, current + [sentences[i]], maxWords)
  {
    SumWordsAppend(current, sentences[i]);
    assert sentences[..i + 1] == sentences[..i] + [sentences[i]];
    if current != [] {
      assert (current + [sentences[i]])[0] == current[0];
    }
  }

  /** The next sentence does not fit a non-empty current group: the group is closed and a new one starts. */
  lemma CloseAndStart(sentences: seq<string>, i: nat, closed: seq<seq<string>>, current: seq<string>, maxWords: int)
    requires Progress(sentences, i, closed, current, maxWords) && i < |sentences|
    requires current != [] && SumWords(current) + WordCount(sentences[i]) > maxWords
    ensures Progress(sentences, i + 1, closed + [current], [sentences[i]], maxWords)
  {
    FlattenAppend(closed, current);
    WellClosedSnoc(closed, current, maxWords);
    assert sentences[..i + 1] == sentences[..i] + [sentences[i]];
  }

  /** After the last sentence, closing a non-empty current group completes a greedy partition. */
  lemma Finish(sentences: seq<string>, closed: seq<seq<string>>, current: seq<string>, maxWords: int)
    requires Progress(sentences, |sentences|, closed, current, maxWords)
    ensures GreedyPartition(sentences, if current == [] then closed else closed + [current], maxWords)
  {
    assert sentences[..|sentences|] == sentences;
    if current != [] {
      FlattenAppend(closed, current);
      WellClosedSnoc(closed, current, maxWords);
    }
  }

  /**
   * One iteration of the loop keeps its invariants: the current group is
   * closed when the next sentence would not fit, and the sentence joins the
   * (possibly fresh) current group.
   */
  lemma Step(sentences: seq<string>, i: nat, closed: seq<seq<string>>, current: seq<string>, maxWords: int)
    requires Progress(sentences, i, closed, current, maxWords) && i < |sentences|
    ensures var close := SumWords(current) + WordCount(sentences[i]) > maxWords && current != [];
      var closed' := if close then closed + [current] else closed;
      var current' := (if close then [] else current) + [sentences[i]];
      && Progress(sentences, i + 1, closed', current', maxWords)
      && SumWords(current') == (if close then 0 else SumWords(current)) + WordCount(sentences[i])
      && ChunkTexts(closed') == if close then ChunkTexts(closed) + [Join(current, " ")] else ChunkTexts(closed)
  {
    if SumWords(current) + WordCount(sentences[i]) > maxWords && current != [] {
      CloseAndStart(sentences, i, closed, current, maxWords);
      ChunkTextsSnoc(closed, current);
      SumWordsAppend([], sentences[i]);
    } else {
      Extend(sentences, i, closed, current, maxWords);
      SumWordsAppend(current, sentences[i]);
    }
  }

  /** When the loop has read every sentence, closing the last group gives the reference chunks. */
  lemma Conclude(sentences: seq<string>, closed: seq<seq<string>>, current: seq<string>, maxWords: int)
    requires Progress(sentences, |sentences|, closed, current, maxWords)
    ensures current != [] ==> ChunkTexts(closed) + [Join(current, " ")] == ChunkTexts(Chunk(sentences, maxWords))
    ensures current == [] ==> ChunkTexts(closed) == ChunkTexts(Chunk(sentences, maxWords))
  {
    Finish(sentences, closed, current, maxWords);
    ChunkIsGreedy(sentences, maxWords);
    if current != [] {
      ChunkTextsSnoc(closed, current);
      GreedyPartitionUnique(sentences, closed + [current], Chunk(sentences, maxWords), maxWords);
    } else {
      GreedyPartitionUnique(sentences, closed, Chunk(sentences, maxWords), maxWords);
    }
  }

  /** `smart_chunk_text` over the segmented sentences. */
  method SmartChunk(sentences: seq<string>, maxWords: int) returns (chunks: seq<string>)
    ensures chunks == ChunkTexts(Chunk(sentences, maxWords))
  {
    chunks := [];
    var current: seq<string> := [];
    var currentLen: int := 0;
    ghost var closed: seq<seq<string>> := [];
    for i := 0 to |sentences|
      invariant Progress(sentences, i, closed, current, maxWords)
      invariant currentLen == SumWords(current)
      invariant chunks == ChunkTexts(closed)
    {
      var sentWords := WordCount(sentences[i]);
      Step(sentences, i, closed, current, maxWords);
      if currentLen + sentWords > maxWords && current != [] {
        chunks := chunks + [Join(current, " ")];
        closed := closed + [current];
        current := [];
        currentLen := 0;
      }
      current := current + [sentences[i]];
      currentLen := currentLen + sentWords;
    }
    Conclude(sentences, closed, current, maxWords);
    if current != [] {
      chunks := chunks + [Join(current, " ")];
    }
  }

  // ---------------------------------------------------------------------------
  // What the chunker promises

  /** Reading the groups in order gives back exactly the input sentences. */
  lemma ChunkCoversSentences(sentences: seq<string>, maxWords: int)
    ensures Flatten(Chunk(sentences, maxWords)) == sentences
  {
    ChunkIsGreedy(sentences, maxWords);
  }

  /** No sentences give no chunks; otherwise every chunk holds at least one sentence. */
  lemma ChunkNonEmpty(sentences: seq<string>, maxWords: int)
    ensures Chunk(sentences, maxWords) == [] <==> sentences == []
    ensures NoEmptyGroup(Chunk(sentences, maxWords))
  {
    ChunkIsGreedy(sentences, maxWords);
    if Chunk(sentences, maxWords) != [] {
      FlattenNonEmpty(Chunk(sentences, maxWords));
    }
  }

  /**
   * A chunk of two or more sentences has at most `maxWords` words: only a
   * chunk made of one long sentence can exceed the budget.
   */
  lemma ChunkBound(sentences: seq<string>, maxWords: int, i: nat)
    requires i < |Chunk(sentences, maxWords)|
    ensures var groups := Chunk(sentences, maxWords);
      WordCount(ChunkTexts(groups)[i]) == SumWords(groups[i])
      && (WordCount(ChunkTexts(groups)[i]) > maxWords ==> |groups[i]| == 1)
  {
    var groups := Chunk(sentences, maxWords);
    ChunkIsGreedy(sentences, maxWords);
    WordCountJoin(groups[i], " ");
  }

  /** A chunk was closed only because the first sentence of the next chunk would have overflowed it. */
  lemma ChunkClosedGreedily(sentences: seq<string>, maxWords: int, i: nat)
    requires i + 1 < |Chunk(sentences, maxWords)|
    ensures var groups := Chunk(sentences, maxWords);
      groups[i + 1] != []
      && WordCount(ChunkTexts(groups)[i]) + WordCount(groups[i + 1][0]) > maxWords
  {
    var groups := Chunk(sentences, maxWords);
    ChunkIsGreedy(sentences, maxWords);
    assert ClosedBefore(groups, i, maxWords);
    WordCountJoin(groups[i], " ");
  }
}
