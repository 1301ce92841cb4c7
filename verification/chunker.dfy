/**
 * The resume chunker: at start-up the resume text is cut into consecutive
 * slices of `ChunkSize` characters, purely by position. No overlap, no
 * trimming; a cut may fall in the middle of a word.
 */
module Chunker {

  import opened Text

  /** `chunkSize` of the backend. */
  const ChunkSize: nat := 500

  function Min(a: int, b: int): int {
    if a <= b then a else b
  }

  /**
   * Reference definition of the chunk list: the whole remaining text when it
   * fits in one chunk, otherwise a full chunk followed by the chunks of the rest.
   */
  function Chunks(text: string): (chunks: seq<string>)
    ensures chunks == [] <==> text == []
    ensures |text| <= ChunkSize ==> |chunks| <= 1
    decreases |text|
  {
    if text == [] then []
    else if |text| <= ChunkSize then [text]
    else [text[..ChunkSize]] + Chunks(text[ChunkSize..])
  }

  /** The slice at chunk position `k`: characters `k * ChunkSize` up to `(k + 1) * ChunkSize`, clamped to the text. */
  function ChunkAt(text: string, k: nat): string {
    text[Min(k * ChunkSize, |text|)..Min(k * ChunkSize + ChunkSize, |text|)]
  }

  /**
   * The chunk-building loop: `for (i = 0; i < text.length; i += chunkSize)`
   * pushing `text.slice(i, i + chunkSize)` onto the chunk list.
   */
  method BuildChunks(text: string) returns (chunks: seq<string>)
    ensures chunks == Chunks(text)
    ensures Concat(chunks) == text
    ensures |chunks| == (|text| + ChunkSize - 1) / ChunkSize
  {
    chunks := [];
    var i: nat := 0;
    while i < |text|
      invariant chunks + Chunks(text[Min(i, |text|)..]) == Chunks(text)
      decreases |text| - i
    {
      var rest := text[i..];
      var n := Min(ChunkSize, |rest|);
      assert rest[..n] == text[i..Min(i + ChunkSize, |text|)];
      assert rest[n..] == text[Min(i + ChunkSize, |text|)..];
      if |rest| <= ChunkSize {
        assert rest[..n] == rest && rest[n..] == [];
      }
      assert Chunks(rest) == [rest[..n]] + Chunks(rest[n..]);
      chunks := chunks + [text[i..Min(i + ChunkSize, |text|)]];
      i := i + ChunkSize;
    }
    ChunksConcat(text);
    ChunksCount(text);
  }

  /** Joining all chunks in order gives back the text exactly. */
  lemma {:induction false} ChunksConcat(text: string)
    ensures Concat(Chunks(text)) == text
    decreases |text|
  {
    if text == [] {
    } else if |text| <= ChunkSize {
      assert Concat([text]) == text + Concat([]);
    } else {
      ChunksConcat(text[ChunkSize..]);
      var r := Chunks(text);
      assert r[1..] == Chunks(text[ChunkSize..]);
      assert text[..ChunkSize] + text[ChunkSize..] == text;
    }
  }

  /**
   * Every chunk but the last is exactly `ChunkSize` long; the last is between
   * 1 and `ChunkSize` long.
   */
  lemma {:induction false} ChunksLengths(text: string)
    ensures forall k :: 0 <= k < |Chunks(text)| - 1 ==> |Chunks(text)[k]| == ChunkSize
    ensures Chunks(text) != [] ==> 0 < |Chunks(text)[|Chunks(text)| - 1]| <= ChunkSize
    ensures forall c :: c in Chunks(text) ==> 0 < |c| <= ChunkSize
    decreases |text|
  {
    var r := Chunks(text);
    if |text| > ChunkSize {
      var tail := Chunks(text[ChunkSize..]);
      ChunksLengths(text[ChunkSize..]);
      assert r == [text[..ChunkSize]] + tail;
      forall k | 0 < k < |r| - 1
        ensures |r[k]| == ChunkSize
      {
        assert r[k] == tail[k - 1];
      }
      forall c | c in r
        ensures 0 < |c| <= ChunkSize
      {
        if c != r[0] {
          assert c in tail;
        }
      }
    }
  }

  /** There are `ceil(|text| / ChunkSize)` chunks; in particular the empty text has none. */
  lemma {:induction false} ChunksCount(text: string)
    ensures |Chunks(text)| == (|text| + ChunkSize - 1) / ChunkSize
    decreases |text|
  {
    if |text| > ChunkSize {
      ChunksCount(text[ChunkSize..]);
    }
  }

  /** Cuts are purely positional: chunk `k` is the slice at position `k`, and it starts inside the text. */
  lemma {:induction false} ChunkPositions(text: string)
    ensures forall k :: 0 <= k < |Chunks(text)| ==>
      k * ChunkSize < |text| && Chunks(text)[k] == ChunkAt(text, k)
    decreases |text|
  {
    var r := Chunks(text);
    if |text| > ChunkSize {
      var rest := text[ChunkSize..];
      ChunkPositions(rest);
      var tail := Chunks(rest);
      assert r == [text[..ChunkSize]] + tail;
      forall k | 0 < k < |r|
        ensures k * ChunkSize < |text| && r[k] == ChunkAt(text, k)
      {
        var j := k - 1;
        assert r[k] == tail[j] == ChunkAt(rest, j);
        assert k * ChunkSize == j * ChunkSize + ChunkSize;
      }
    }
  }
}
