/** `chunk_text`: cut a string into fixed-width, non-overlapping slices
    starting at offset 0, the last one possibly shorter. */
module Chunking {
  import opened Strings

  /** The default `max_length` of `chunk_text`, the width `process_pdf` uses. */
  const DefaultMaxLength: nat := 1000

  /** How many offsets `range(0, n, width)` yields. */
  function ChunkCount(n: nat, width: nat): nat
    requires width > 0
  {
    (n + width - 1) / width
  }

  /** ChunkCount is the ceiling of n / width: the fewest slices of that
      width that cover n characters. */
  lemma ChunkCountIsCeiling(n: nat, width: nat)
    requires width > 0
    ensures (ChunkCount(n, width) - 1) * width < n <= ChunkCount(n, width) * width
  {
    var c := ChunkCount(n, width);
    var r := (n + width - 1) % width;
    assert n + width - 1 == c * width + r;
    assert (c - 1) * width == c * width - width;
  }

  lemma MulMonotone(a: int, b: int, width: nat)
    requires a <= b
    ensures a * width <= b * width
  {
    assert b * width - a * width == (b - a) * width;
  }

  /** A start offset below the chunk count lies inside the text. */
  lemma StartInText(n: nat, width: nat, i: nat)
    requires width > 0 && i < ChunkCount(n, width)
    ensures i * width < n
    ensures i < ChunkCount(n, width) - 1 ==> i * width + width < n
  {
    ChunkCountIsCeiling(n, width);
    MulMonotone(i, ChunkCount(n, width) - 1, width);
    if i < ChunkCount(n, width) - 1 {
      MulMonotone(i + 1, ChunkCount(n, width) - 1, width);
    }
  }

  /** The slice `text[start:start+maxLength]` for chunk i, with Python's
      clamping of the end to the length of the text. */
  function Window(text: string, maxLength: nat, i: nat): (w: string)
    requires maxLength > 0 && i < ChunkCount(|text|, maxLength)
    ensures 0 < |w| <= maxLength
    ensures i * maxLength + |w| <= |text|
    ensures w == text[i * maxLength .. i * maxLength + |w|]
    ensures |w| == maxLength || i * maxLength + |w| == |text|
  {
    StartInText(|text|, maxLength, i);
    text[i * maxLength .. Min(i * maxLength + maxLength, |text|)]
  }

  /** Python's `[text[i:i+max_length] for i in range(0, len(text), max_length)]`.
      The number of chunks is ceil(|text| / maxLength): no fewer would
      cover the text, and no chunk starts past its end. */
  function ChunkText(text: string, maxLength: nat): (chunks: seq<string>)
    requires maxLength > 0
    ensures (|chunks| - 1) * maxLength < |text| <= |chunks| * maxLength
  {
    var n := ChunkCount(|text|, maxLength);
    ChunkCountIsCeiling(|text|, maxLength);
    seq(n, i requires 0 <= i < n => Window(text, maxLength, i))
  }

  /** Every chunk is non-empty and at most maxLength long, every chunk but
      the last is exactly maxLength long, the last one ends at the end of
      the text, and chunk i is the piece of the text that starts at offset
      i * maxLength. */
  lemma ChunkShape(text: string, maxLength: nat, i: nat)
    requires maxLength > 0 && i < |ChunkText(text, maxLength)|
    ensures var chunks := ChunkText(text, maxLength);
      && 0 < |chunks[i]| <= maxLength
      && (i < |chunks| - 1 ==> |chunks[i]| == maxLength)
      && (i == |chunks| - 1 ==> i * maxLength + |chunks[i]| == |text|)
      && i * maxLength + |chunks[i]| <= |text|
      && chunks[i] == text[i * maxLength .. i * maxLength + |chunks[i]|]
  {
    StartInText(|text|, maxLength, i);
  }

  /** The first i chunks, joined, are the first i * maxLength characters of
      the text (all of it once i reaches the chunk count). */
  lemma {:induction false} ChunksCoverPrefix(text: string, maxLength: nat, i: nat)
    requires maxLength > 0 && i <= |ChunkText(text, maxLength)|
    ensures Concat(ChunkText(text, maxLength)[..i]) == text[..Min(i * maxLength, |text|)]
  {
    var chunks := ChunkText(text, maxLength);
    if i == 0 {
      assert chunks[..0] == [];
    } else {
      ChunksCoverPrefix(text, maxLength, i - 1);
      var start := (i - 1) * maxLength;
      var end := Min(i * maxLength, |text|);
      StartInText(|text|, maxLength, i - 1);
      assert start + maxLength == i * maxLength;
      assert chunks[..i][..i - 1] == chunks[..i - 1];
      assert Concat(chunks[..i]) == Concat(chunks[..i - 1]) + chunks[i - 1];
      assert Concat(chunks[..i - 1]) == text[..start];
      assert chunks[i - 1] == text[start..end];
      assert text[..start] + text[start..end] == text[..end];
    }
  }

  /** Joining the chunks in order gives back the text exactly. */
  lemma ChunksConcatenate(text: string, maxLength: nat)
    requires maxLength > 0
    ensures Concat(ChunkText(text, maxLength)) == text
  {
    var chunks := ChunkText(text, maxLength);
    ChunksCoverPrefix(text, maxLength, |chunks|);
    assert chunks[..|chunks|] == chunks;
    assert text[..|text|] == text;
  }

  /** Only ChunkCount satisfies the ceiling bounds of ChunkCountIsCeiling. */
  lemma CeilingUnique(n: nat, width: nat, c: nat)
    requires width > 0 && (c - 1) * width < n <= c * width
    ensures c == ChunkCount(n, width)
  {
    var d := ChunkCount(n, width);
    ChunkCountIsCeiling(n, width);
    if c < d { MulMonotone(c, d - 1, width); }
    if d < c { MulMonotone(d, c - 1, width); }
  }

  /** A full window that ends inside a prefix is the same in the prefix. */
  lemma WindowInPrefix(text: string, maxLength: nat, p: nat, i: nat)
    requires maxLength > 0 && p <= |text| && i * maxLength + maxLength <= p
    requires i < ChunkCount(p, maxLength) && i < ChunkCount(|text|, maxLength)
    ensures Window(text[..p], maxLength, i) == Window(text, maxLength, i)
  {
    var start := i * maxLength;
    assert text[..p][start..start + maxLength] == text[start..start + maxLength];
  }

  /** The first k chunks of a text are the chunks of its first
      k * maxLength characters: a chunk never looks past its own window. */
  lemma ChunksOfPrefix(text: string, maxLength: nat, k: nat)
    requires maxLength > 0
    ensures ChunkText(text, maxLength)[..Min(k, |ChunkText(text, maxLength)|)]
         == ChunkText(text[..Min(k * maxLength, |text|)], maxLength)
  {
    var chunks := ChunkText(text, maxLength);
    var p := Min(k * maxLength, |text|);
    var pchunks := ChunkText(text[..p], maxLength);
    if k * maxLength <= |text| {
      // The prefix is exactly k windows long, and the text has at least k chunks.
      if k > 0 {
        assert (k - 1) * maxLength == k * maxLength - maxLength;
      }
      CeilingUnique(p, maxLength, k);
      if |chunks| < k { MulMonotone(|chunks|, k - 1, maxLength); }
      var head := chunks[..k];
      forall i | 0 <= i < k ensures head[i] == pchunks[i] {
        MulMonotone(i + 1, k, maxLength);
        WindowInPrefix(text, maxLength, p, i);
      }
    } else {
      // The whole text is shorter than k windows: nothing is cut off.
      assert text[..p] == text;
      if |chunks| > k { MulMonotone(k, |chunks| - 1, maxLength); }
      assert chunks[..|chunks|] == chunks;
    }
  }
}
