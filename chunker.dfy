/** The message chunker: `split_message` cuts an outgoing text into slices that
    fit the transport's size limit for one message. */
module Chunker {

  /** The limit every reply goes out with (the default `chunk_size`). */
  const ChunkSize: nat := 3200

  function Min(a: int, b: int): (m: int) { if a <= b then a else b }

  /** The slices `text[i:i+n]` for the offsets `i, i+n, i+2n, ...` that lie
      below `|text|`, in that order: the comprehension over
      `range(i, len(text), n)`. A slice that runs past the end is clamped. */
  function SlicesFrom(text: string, n: nat, i: nat): (slices: seq<string>)
    requires n >= 1
    decreases |text| - i
  {
    if i >= |text| then [] else [text[i..Min(i + n, |text|)]] + SlicesFrom(text, n, i + n)
  }

  /** `split_message`: the empty text gives one empty segment, any other text
      its consecutive slices of at most `chunkSize` characters. There is
      always at least one part, and the lone empty part comes from the empty
      text only. */
  function SplitMessage(text: string, chunkSize: nat): (parts: seq<string>)
    requires chunkSize >= 1
    ensures |parts| >= 1
    ensures parts == [""] <==> text == []
  {
    if text == [] then [""]
    else
      assert |SlicesFrom(text, chunkSize, 0)[0]| > 0;
      SlicesFrom(text, chunkSize, 0)
  }

  /** The text obtained by sending the parts one after another. */
  function Concat(parts: seq<string>): (joined: string)
  {
    if parts == [] then [] else parts[0] + Concat(parts[1..])
  }

  lemma {:induction false} ConcatPrepend(x: string, rest: seq<string>)
    ensures Concat([x] + rest) == x + Concat(rest)
  {
  }

  /** Reassembling the slices taken from offset `i` gives back `text[i..]`. */
  lemma {:induction false} ConcatSlicesFrom(text: string, n: nat, i: nat)
    requires n >= 1 && i <= |text|
    ensures Concat(SlicesFrom(text, n, i)) == text[i..]
    decreases |text| - i
  {
    if i < |text| {
      var j := Min(i + n, |text|);
      ConcatPrepend(text[i..j], SlicesFrom(text, n, i + n));
      if i + n <= |text| {
        ConcatSlicesFrom(text, n, i + n);
      } else {
        assert SlicesFrom(text, n, i + n) == [];
      }
      assert text[i..] == text[i..j] + text[j..];
    }
  }

  /** No loss and no reordering: the chunks in order spell the input. */
  lemma SplitConcat(text: string, chunkSize: nat)
    requires chunkSize >= 1
    ensures Concat(SplitMessage(text, chunkSize)) == text
  {
    if text == [] {
      assert Concat([""]) == "" + Concat([]);
    } else {
      ConcatSlicesFrom(text, chunkSize, 0);
    }
  }

  /** The number `c` of slices from offset `i` is the least count whose `c`
      slices of `n` characters cover the rest of the text. */
  lemma {:induction false} SlicesFromCount(text: string, n: nat, i: nat)
    requires n >= 1 && i <= |text|
    ensures (|SlicesFrom(text, n, i)| - 1) * n < |text| - i <= |SlicesFrom(text, n, i)| * n
    decreases |text| - i
  {
    if i < |text| {
      var c := |SlicesFrom(text, n, i + n)|;
      assert |SlicesFrom(text, n, i)| == c + 1;
      if i + n <= |text| {
        SlicesFromCount(text, n, i + n);
        assert (c + 1) * n == c * n + n;
      } else {
        assert c == 0;
      }
    }
  }

  /** Slice `k` from offset `i` is `text[i + k*n .. min(i + (k+1)*n, |text|)]`. */
  lemma {:induction false} SlicesFromAt(text: string, n: nat, i: nat, k: nat)
    requires n >= 1 && k < |SlicesFrom(text, n, i)|
    ensures i + k * n < |text|
    ensures SlicesFrom(text, n, i)[k] == text[i + k * n..Min(i + k * n + n, |text|)]
    decreases k
  {
    if k > 0 {
      SlicesFromAt(text, n, i + n, k - 1);
      assert i + n + (k - 1) * n == i + k * n;
    }
  }

  /** Every chunk of a non-empty text is non-empty and within the bound, and
      every chunk but the last is exactly `chunkSize` long. */
  lemma ChunkLengths(text: string, chunkSize: nat)
    requires chunkSize >= 1 && text != []
    ensures var parts := SplitMessage(text, chunkSize);
      && (forall k :: 0 <= k < |parts| ==> 0 < |parts[k]| <= chunkSize)
      && (forall k :: 0 <= k < |parts| - 1 ==> |parts[k]| == chunkSize)
  {
    var parts := SplitMessage(text, chunkSize);
    forall k | 0 <= k < |parts| ensures 0 < |parts[k]| <= chunkSize {
      ChunkLength(text, chunkSize, k);
    }
    forall k | 0 <= k < |parts| - 1 ensures |parts[k]| == chunkSize {
      ChunkLength(text, chunkSize, k);
    }
  }

  /** The length of chunk `k` of a non-empty text. */
  lemma ChunkLength(text: string, chunkSize: nat, k: nat)
    requires chunkSize >= 1 && text != [] && k < |SplitMessage(text, chunkSize)|
    ensures 0 < |SplitMessage(text, chunkSize)[k]| <= chunkSize
    ensures k < |SplitMessage(text, chunkSize)| - 1 ==> |SplitMessage(text, chunkSize)[k]| == chunkSize
  {
    var c := |SlicesFrom(text, chunkSize, 0)|;
    SlicesFromAt(text, chunkSize, 0, k);
    var lo := k * chunkSize;
    if k < c - 1 {
      SlicesFromCount(text, chunkSize, 0);
      MulLe(k + 1, c - 1, chunkSize);
      assert lo + chunkSize <= (c - 1) * chunkSize < |text|;
    }
  }

  /** Chunk `k` is the slice `text[k*chunkSize : (k+1)*chunkSize]`. */
  lemma ChunkAt(text: string, chunkSize: nat, k: nat)
    requires chunkSize >= 1 && text != []
    requires k < |SplitMessage(text, chunkSize)|
    ensures k * chunkSize < |text|
    ensures SplitMessage(text, chunkSize)[k]
         == text[k * chunkSize..Min(k * chunkSize + chunkSize, |text|)]
  {
    SlicesFromAt(text, chunkSize, 0, k);
  }

  lemma MulLe(a: nat, b: nat, n: nat)
    requires a <= b
    ensures a * n <= b * n
  {
  }

  lemma DivExact(x: nat, n: nat, c: nat)
    requires n >= 1 && c * n <= x < c * n + n
    ensures x / n == c
  {
    var q, r := x / n, x % n;
    assert x == q * n + r && 0 <= r < n;
    if q < c {
      MulLe(q + 1, c, n);
    } else if q > c {
      MulLe(c + 1, q, n);
    }
  }

  /** A non-empty text goes out as ceil(|text| / chunkSize) chunks. */
  lemma ChunkCount(text: string, chunkSize: nat)
    requires chunkSize >= 1 && text != []
    ensures |SplitMessage(text, chunkSize)| == (|text| + chunkSize - 1) / chunkSize
  {
    var c := |SplitMessage(text, chunkSize)|;
    SlicesFromCount(text, chunkSize, 0);
    DivExact(|text| + chunkSize - 1, chunkSize, c);
  }

  /** A non-empty text within the limit goes out in one piece. */
  lemma SplitShort(text: string, chunkSize: nat)
    requires chunkSize >= 1 && 0 < |text| <= chunkSize
    ensures SplitMessage(text, chunkSize) == [text]
  {
    assert SlicesFrom(text, chunkSize, chunkSize) == [];
    assert text[0..Min(chunkSize, |text|)] == text;
  }

  /** Re-splitting any chunk with the same limit returns that chunk alone. */
  lemma SplitIdempotent(text: string, chunkSize: nat, k: nat)
    requires chunkSize >= 1 && k < |SplitMessage(text, chunkSize)|
    ensures var part := SplitMessage(text, chunkSize)[k];
      SplitMessage(part, chunkSize) == [part]
  {
    var part := SplitMessage(text, chunkSize)[k];
    if text != [] {
      ChunkLengths(text, chunkSize);
      SplitShort(part, chunkSize);
    }
  }

  /** A 10,000-character answer goes out as four chunks at the default limit. */
  lemma TenThousandCharacters(text: string)
    requires |text| == 10000
    ensures |SplitMessage(text, ChunkSize)| == 4
    ensures Concat(SplitMessage(text, ChunkSize)) == text
  {
    ChunkCount(text, ChunkSize);
    SplitConcat(text, ChunkSize);
  }
}
