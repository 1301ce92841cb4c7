/**
 * `findBestChunk`: keyword-overlap selection of the chunk that is sent as
 * context with a question. A chunk's score is the number of question tokens,
 * duplicates included, that occur anywhere among the chunk's tokens; the
 * chunk with the strictly highest score wins, so the earliest one wins a tie,
 * and the first chunk is kept when no chunk scores above 0.
 */
module Selector {

  import opened Wrappers
  import opened Text

  /**
   * `questionWords.filter(word => chunkWords.includes(word))`: the question
   * tokens that occur in the chunk, in question order, each kept as often as
   * the question repeats it.
   */
  function Common(questionWords: seq<string>, chunkWords: seq<string>): (common: seq<string>)
    ensures |common| <= |questionWords|
    ensures forall k :: 0 <= k < |common| ==> common[k] in chunkWords
    decreases |questionWords|
  {
    if questionWords == [] then []
    else
      var rest := Common(questionWords[1..], chunkWords);
      if questionWords[0] in chunkWords then [questionWords[0]] + rest else rest
  }

  /**
   * The overlap counts every question token as often as the question repeats
   * it when the chunk's tokens contain it, and not at all otherwise.
   */
  lemma {:induction false} CommonCounts(questionWords: seq<string>, chunkWords: seq<string>, w: string)
    ensures multiset(Common(questionWords, chunkWords))[w] ==
      if w in chunkWords then multiset(questionWords)[w] else 0
    decreases |questionWords|
  {
    if questionWords != [] {
      CommonCounts(questionWords[1..], chunkWords, w);
      assert questionWords == [questionWords[0]] + questionWords[1..];
    }
  }

  /**
   * Score bounds: at most one point per question token, 0 exactly when no
   * question token occurs in the chunk, full exactly when every one does.
   */
  lemma {:induction false} CommonBounds(questionWords: seq<string>, chunkWords: seq<string>)
    ensures |Common(questionWords, chunkWords)| <= |questionWords|
    ensures Common(questionWords, chunkWords) == [] <==>
      forall k :: 0 <= k < |questionWords| ==> questionWords[k] !in chunkWords
    ensures |Common(questionWords, chunkWords)| == |questionWords| <==>
      forall k :: 0 <= k < |questionWords| ==> questionWords[k] in chunkWords
    decreases |questionWords|
  {
    if questionWords != [] {
      var first, tail := questionWords[0], questionWords[1..];
      CommonBounds(tail, chunkWords);
      var rest := Common(tail, chunkWords);
      if forall k :: 0 <= k < |tail| ==> tail[k] !in chunkWords {
        forall k | 0 < k < |questionWords|
          ensures questionWords[k] !in chunkWords
        {
          assert questionWords[k] == tail[k - 1];
        }
      } else {
        var k :| 0 <= k < |tail| && tail[k] in chunkWords;
        assert questionWords[k + 1] in chunkWords;
      }
      if forall k :: 0 <= k < |tail| ==> tail[k] in chunkWords {
        forall k | 0 < k < |questionWords|
          ensures questionWords[k] in chunkWords
        {
          assert questionWords[k] == tail[k - 1];
        }
      } else {
        var k :| 0 <= k < |tail| && tail[k] !in chunkWords;
        assert questionWords[k + 1] !in chunkWords;
      }
    }
  }

  /** `commonWords.length` for one chunk: at most one point per question token. */
  function ChunkScore(questionWords: seq<string>, chunk: string): (score: nat)
    ensures score <= |questionWords|
  {
    |Common(questionWords, Tokenize(chunk))|
  }

  /** The score of every chunk, in chunk order. */
  function Scores(questionWords: seq<string>, chunks: seq<string>): seq<nat> {
    seq(|chunks|, k requires 0 <= k < |chunks| => ChunkScore(questionWords, chunks[k]))
  }

  /** `k` holds a maximal score and every earlier score is strictly smaller. */
  predicate IsFirstMax(scores: seq<nat>, k: nat) {
    && k < |scores|
    && (forall j :: 0 <= j < |scores| ==> scores[j] <= scores[k])
    && (forall j :: 0 <= j < k ==> scores[j] < scores[k])
  }

  /** At most one position is the first maximum. */
  lemma FirstMaxUnique(scores: seq<nat>, k1: nat, k2: nat)
    requires IsFirstMax(scores, k1) && IsFirstMax(scores, k2)
    ensures k1 == k2
  {
    var atFirst, atSecond := scores[k1], scores[k2];
  }

  /** Reference argmax with the first-wins tie-break, over growing prefixes. */
  function ArgMax(scores: seq<nat>): (k: nat)
    requires scores != []
    ensures IsFirstMax(scores, k)
    decreases |scores|
  {
    if |scores| == 1 then 0
    else
      var k := ArgMax(scores[..|scores| - 1]);
      if scores[|scores| - 1] > scores[k] then |scores| - 1 else k
  }

  /**
   * What `findBestChunk` returns: the first chunk of maximal score, or
   * `undefined` (`None`) when there are no chunks, since `resumeChunks[0]`
   * is then `undefined`.
   */
  function BestChunk(question: string, chunks: seq<string>): (best: Option<string>)
    ensures best == None <==> chunks == []
    ensures best.Some? ==> best.value in chunks
    ensures chunks != [] ==>
      exists k: nat :: IsFirstMax(Scores(Tokenize(question), chunks), k) && best == Some(chunks[k])
  {
    if chunks == [] then None else Some(chunks[ArgMax(Scores(Tokenize(question), chunks))])
  }

  /** The scan of `findBestChunk`, keeping `bestChunk` and `bestScore` and replacing them on a strictly higher score. */
  method FindBestChunk(question: string, chunks: seq<string>) returns (bestChunk: Option<string>)
    ensures bestChunk == BestChunk(question, chunks)
  {
    var questionWords := Tokenize(question);
    ghost var scores := Scores(questionWords, chunks);
    bestChunk := if chunks == [] then None else Some(chunks[0]);
    var bestScore: nat := 0;
    ghost var bestIndex: nat := 0;
    for i := 0 to |chunks|
      invariant chunks == [] ==> bestChunk == None
      invariant chunks != [] ==> bestIndex < |chunks| && bestChunk == Some(chunks[bestIndex])
      invariant i == 0 ==> bestIndex == 0 && bestScore == 0
      invariant i > 0 ==> bestIndex < i && bestScore == scores[bestIndex]
      invariant forall j :: 0 <= j < i ==> scores[j] <= bestScore
      invariant forall j :: 0 <= j < bestIndex ==> scores[j] < bestScore
    {
      var chunkWords := Tokenize(chunks[i]);
      var commonWords := Common(questionWords, chunkWords);
      assert scores[i] == |commonWords|;
      if |commonWords| > bestScore {
        bestScore := |commonWords|;
        bestChunk := Some(chunks[i]);
        bestIndex := i;
      }
    }
    if chunks != [] {
      FirstMaxUnique(scores, bestIndex, ArgMax(scores));
    }
  }

  /** When no chunk shares a token with the question, the first chunk is returned. */
  lemma NoOverlapPicksFirst(question: string, chunks: seq<string>)
    requires chunks != []
    requires forall k :: 0 <= k < |chunks| ==> ChunkScore(Tokenize(question), chunks[k]) == 0
    ensures BestChunk(question, chunks) == Some(chunks[0])
  {
    var scores := Scores(Tokenize(question), chunks);
    assert IsFirstMax(scores, 0);
    FirstMaxUnique(scores, 0, ArgMax(scores));
  }

  /** When exactly one chunk shares a token with the question, that chunk is returned. */
  lemma OnlyMatchWins(question: string, chunks: seq<string>, m: nat)
    requires m < |chunks|
    requires ChunkScore(Tokenize(question), chunks[m]) > 0
    requires forall k :: 0 <= k < |chunks| && k != m ==> ChunkScore(Tokenize(question), chunks[k]) == 0
    ensures BestChunk(question, chunks) == Some(chunks[m])
  {
    var scores := Scores(Tokenize(question), chunks);
    assert IsFirstMax(scores, m);
    FirstMaxUnique(scores, m, ArgMax(scores));
  }

  lemma TokensOfQuestion()
    ensures Tokenize("java?") == ["java", ""]
  {
    assert Lower("java?") == "java?";
    assert "?"[1..] == "";
    assert Split("?") == [""] + [""];
    SplitWordCons('a', "?", "", [""]);
    assert "a?" == ['a'] + "?" && "a" == ['a'] + "";
    SplitWordCons('v', "a?", "a", [""]);
    assert "va?" == ['v'] + "a?" && "va" == ['v'] + "a";
    SplitWordCons('a', "va?", "va", [""]);
    assert "ava?" == ['a'] + "va?" && "ava" == ['a'] + "va";
    SplitWordCons('j', "ava?", "ava", [""]);
    assert "java?" == ['j'] + "ava?" && "java" == ['j'] + "ava";
  }

  lemma TokensOfChunks()
    ensures Tokenize("x.") == ["x", ""]
    ensures Tokenize("java") == ["java"]
  {
    assert Lower("x.") == "x.";
    assert "."[1..] == "";
    assert Split(".") == [""] + [""];
    SplitWordCons('x', ".", "", [""]);
    assert "x." == ['x'] + "." && "x" == ['x'] + "";
    assert Lower("java") == "java";
    assert Split("") == [""] + [];
    SplitWordCons('a', "", "", []);
    assert "a" == ['a'] + "";
    SplitWordCons('v', "a", "a", []);
    assert "va" == ['v'] + "a";
    SplitWordCons('a', "va", "va", []);
    assert "ava" == ['a'] + "va";
    SplitWordCons('j', "ava", "ava", []);
    assert "java" == ['j'] + "ava";
  }

  lemma CommonOfExample()
    ensures Common(["java", ""], ["x", ""]) == [""]
    ensures Common(["java", ""], ["java"]) == ["java"]
  {
    var q := ["java", ""];
    assert q[1..] == [""];
    assert Common([""], ["x", ""]) == [""];
    assert Common([""], ["java"]) == [];
  }

  /**
   * Empty tokens take part in the overlap: for the question "java?" (tokens
   * "java" and "") the chunk "x." (tokens "x" and "") scores as much as the
   * chunk "java", so the earlier "x." is chosen although only "java" contains
   * the question's word.
   */
  lemma EmptyTokensCount()
    ensures ChunkScore(Tokenize("java?"), "x.") == 1
    ensures ChunkScore(Tokenize("java?"), "java") == 1
    ensures BestChunk("java?", ["x.", "java"]) == Some("x.")
  {
    TokensOfQuestion();
    TokensOfChunks();
    CommonOfExample();
    var q := ["java", ""];
    var chunks := ["x.", "java"];
    var scores := Scores(q, chunks);
    assert scores[0] == ChunkScore(q, "x.") == 1;
    assert scores[1] == ChunkScore(q, "java") == 1;
    assert IsFirstMax(scores, 0);
    FirstMaxUnique(scores, 0, ArgMax(scores));
  }
}
