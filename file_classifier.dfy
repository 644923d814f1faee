/** The whole-file text classification of the scanner (IsUtf8File): the file is
    read through a 1024-byte buffer and every chunk read is checked on its own. */
module FileClassifier {
  import opened Utf8Shape

  /** The size of the read buffer. */
  const BufferSize := 1024

  /** What the successive reads of an open file deliver: `chunks` are the non-empty
      chunks the reads return, in order; the read after the last one either reports
      end of file (0 bytes) or, when `failsAtEnd`, throws. A file that cannot be
      opened is a stream with no chunks that fails at once. */
  datatype ByteStream = ByteStream(chunks: seq<seq<bv8>>, failsAtEnd: bool)

  /** A read into the buffer returns between 1 and BufferSize bytes. */
  predicate ValidStream(st: ByteStream) {
    forall k | 0 <= k < |st.chunks| :: 0 < |st.chunks[k]| <= BufferSize
  }

  /** The bytes the file delivers, all chunks joined. */
  function Flatten(chunks: seq<seq<bv8>>): seq<bv8>
    decreases |chunks|
  {
    if chunks == [] then [] else chunks[0] + Flatten(chunks[1..])
  }

  /** The verdict of the read loop on the chunks still to come: a chunk that fails
      the shape check stops it with false; after the last chunk, end of file gives
      true and an exception gives false. */
  predicate ReadsText(chunks: seq<seq<bv8>>, failsAtEnd: bool)
    decreases |chunks|
  {
    if chunks == [] then !failsAtEnd
    else WellShaped(chunks[0]) && ReadsText(chunks[1..], failsAtEnd)
  }

  /** IsUtf8File: true exactly when the read loop finds every chunk well shaped and
      reaches end of file without an exception. */
  method IsUtf8File(st: ByteStream) returns (isText: bool)
    requires ValidStream(st)
    ensures isText == ReadsText(st.chunks, st.failsAtEnd)
  {
    var buffer := new bv8[BufferSize];
    var k := 0;
    while k < |st.chunks|
      invariant 0 <= k <= |st.chunks|
      invariant ReadsText(st.chunks, st.failsAtEnd) == ReadsText(st.chunks[k..], st.failsAtEnd)
    {
      var chunk := st.chunks[k];
      var bytesRead := |chunk|;
      // the read overwrites the front of the buffer; bytes past bytesRead are stale
      forall j | 0 <= j < bytesRead {
        buffer[j] := chunk[j];
      }
      assert buffer[..bytesRead] == chunk;
      var valid := IsValidUtf8(buffer, bytesRead);
      if !valid {
        return false;
      }
      assert st.chunks[k..][1..] == st.chunks[k + 1..];
      k := k + 1;
    }
    // the next read reports end of file, or throws and the exception is caught
    isText := !st.failsAtEnd;
  }

  /** The file is text exactly when no exception occurs and every chunk passes
      the shape check independently. */
  lemma {:induction false} TextIffEveryChunkWellShaped(chunks: seq<seq<bv8>>, failsAtEnd: bool)
    ensures ReadsText(chunks, failsAtEnd) <==>
      !failsAtEnd && forall k | 0 <= k < |chunks| :: WellShaped(chunks[k])
    decreases |chunks|
  {
    if chunks != [] {
      TextIffEveryChunkWellShaped(chunks[1..], failsAtEnd);
      assert forall k | 1 <= k < |chunks| :: chunks[k] == chunks[1..][k - 1];
    }
  }

  /** Any I/O exception, at opening or at any read, makes the file binary. */
  lemma {:induction false} FailureIsNotText(chunks: seq<seq<bv8>>)
    ensures !ReadsText(chunks, true)
    decreases |chunks|
  {
    if chunks != [] {
      FailureIsNotText(chunks[1..]);
    }
  }

  /** An empty file (end of file at the first read) is text. */
  lemma EmptyFileIsText()
    ensures ReadsText([], false)
  {
  }

  /** No false positives: a file classified as text is well shaped as a whole. */
  lemma {:induction false} TextIsWellShaped(chunks: seq<seq<bv8>>, failsAtEnd: bool)
    requires ReadsText(chunks, failsAtEnd)
    ensures WellShaped(Flatten(chunks))
    decreases |chunks|
  {
    if chunks != [] {
      TextIsWellShaped(chunks[1..], failsAtEnd);
      ConcatWellShaped(chunks[0], Flatten(chunks[1..]));
    }
  }

  /** Two chunks delivered one after the other. */
  lemma FlattenPair(first: seq<bv8>, second: seq<bv8>)
    ensures Flatten([first, second]) == first + second
  {
    var chunks := [first, second];
    assert chunks[1..] == [second] && chunks[1..][1..] == [];
    assert Flatten([second]) == second + Flatten([]);
    assert Flatten(chunks) == first + Flatten([second]);
  }

  /** A chunk that ends inside a group makes the file binary, at any position in
      the stream and whatever the reads before and after it deliver. */
  lemma ChunkEndingInsideGroupIsBinary(before: seq<seq<bv8>>, pre: seq<bv8>, t: seq<bv8>,
                                       rest: seq<seq<bv8>>, failsAtEnd: bool)
    requires WellShaped(pre)
    requires t != [] && |t| < SequenceLength(t[0])
    ensures !ReadsText(before + [pre + t] + rest, failsAtEnd)
  {
    TruncatedSequenceRejected(pre, t);
    TextIffEveryChunkWellShaped(before + [pre + t] + rest, failsAtEnd);
    assert (before + [pre + t] + rest)[|before|] == pre + t;
  }

  /** Reads joined one list after another. */
  lemma {:induction false} FlattenAppend(a: seq<seq<bv8>>, b: seq<seq<bv8>>)
    ensures Flatten(a + b) == Flatten(a) + Flatten(b)
    decreases |a|
  {
    if a == [] {
      assert a + b == b;
    } else {
      assert (a + b)[1..] == a[1..] + b;
      FlattenAppend(a[1..], b);
    }
  }

  /** Reads that each pass the check join into well-shaped bytes. */
  lemma ChunksWellShaped(chunks: seq<seq<bv8>>)
    requires forall k | 0 <= k < |chunks| :: WellShaped(chunks[k])
    ensures WellShaped(Flatten(chunks))
  {
    TextIffEveryChunkWellShaped(chunks, false);
    TextIsWellShaped(chunks, false);
  }

  /** A complete group: a lead and exactly the continuation bytes it announces. */
  lemma GroupIsWellShaped(g: seq<bv8>)
    requires g != [] && |g| == SequenceLength(g[0]) && ContinuationsFollow(g, |g|)
    ensures WellShaped(g)
  {
    assert g[|g|..] == [];
  }

  /** A group between two well-shaped byte strings, cut at j, is well shaped when
      the two pieces are joined again. */
  lemma GroupBetweenWellShaped(pre: seq<bv8>, g: seq<bv8>, j: nat, post: seq<bv8>)
    requires WellShaped(pre) && WellShaped(post)
    requires g != [] && |g| == SequenceLength(g[0]) && ContinuationsFollow(g, |g|)
    requires j <= |g|
    ensures WellShaped((pre + g[..j]) + (g[j..] + post))
  {
    GroupIsWellShaped(g);
    ConcatWellShaped(g, post);
    ConcatWellShaped(pre, g + post);
    Rejoin(pre, g, j, post);
  }

  /** Cutting g at j and joining the pieces again gives back the same bytes. */
  lemma Rejoin(pre: seq<bv8>, g: seq<bv8>, j: nat, post: seq<bv8>)
    requires j <= |g|
    ensures (pre + g[..j]) + (g[j..] + post) == pre + (g + post)
  {
    assert g[..j] + g[j..] == g;
  }

  /** The bytes of well-shaped reads, then two reads, then well-shaped reads. */
  lemma FlattenAround(before: seq<seq<bv8>>, first: seq<bv8>, second: seq<bv8>, after: seq<seq<bv8>>)
    requires WellShaped(Flatten(before)) && WellShaped(first + second) && WellShaped(Flatten(after))
    ensures WellShaped(Flatten(before + [first, second] + after))
  {
    FlattenPair(first, second);
    FlattenAppend([first, second], after);
    assert before + [first, second] + after == before + ([first, second] + after);
    FlattenAppend(before, [first, second] + after);
    ConcatWellShaped(first + second, Flatten(after));
    ConcatWellShaped(Flatten(before), Flatten([first, second] + after));
  }

  /** Valid reads, then two reads of 1 to BufferSize bytes, then valid reads. */
  lemma ValidAround(before: seq<seq<bv8>>, first: seq<bv8>, second: seq<bv8>, after: seq<seq<bv8>>)
    requires ValidStream(ByteStream(before, false)) && ValidStream(ByteStream(after, false))
    requires 0 < |first| <= BufferSize && 0 < |second| <= BufferSize
    ensures ValidStream(ByteStream(before + [first, second] + after, false))
  {
    var chunks := before + [first, second] + after;
    forall k | 0 <= k < |chunks|
      ensures 0 < |chunks[k]| <= BufferSize
    {
      if k < |before| {
        assert chunks[k] == before[k];
      } else if k == |before| {
        assert chunks[k] == first;
      } else if k == |before| + 1 {
        assert chunks[k] == second;
      } else {
        assert chunks[k] == after[k - |before| - 2];
      }
    }
  }

  /** A character of 2, 3 or 4 bytes split between two consecutive reads, at any
      point inside it and with any well-shaped reads before and after, makes the
      file binary, although the content as a whole is well shaped. */
  lemma SplitCharacterMisclassified(before: seq<seq<bv8>>, pre: seq<bv8>, g: seq<bv8>, j: nat,
                                    post: seq<bv8>, after: seq<seq<bv8>>)
    requires forall k | 0 <= k < |before| :: 0 < |before[k]| <= BufferSize && WellShaped(before[k])
    requires forall k | 0 <= k < |after| :: 0 < |after[k]| <= BufferSize && WellShaped(after[k])
    requires WellShaped(pre) && WellShaped(post)
    requires g != [] && |g| == SequenceLength(g[0]) >= 2 && ContinuationsFollow(g, |g|)
    requires 1 <= j < |g|
    requires |pre| + j <= BufferSize && |g| - j + |post| <= BufferSize
    ensures var st := ByteStream(before + [pre + g[..j], g[j..] + post] + after, false);
      ValidStream(st) && WellShaped(Flatten(st.chunks)) && !ReadsText(st.chunks, st.failsAtEnd)
  {
    var first, second := pre + g[..j], g[j..] + post;
    assert ValidStream(ByteStream(before, false)) && ValidStream(ByteStream(after, false));
    ValidAround(before, first, second, after);
    GroupBetweenWellShaped(pre, g, j, post);
    ChunksWellShaped(before);
    ChunksWellShaped(after);
    FlattenAround(before, first, second, after);
    assert g[..j][0] == g[0];
    ChunkEndingInsideGroupIsBinary(before, pre, g[..j], [second] + after, false);
    Regroup(before, first, second, after);
  }

  /** The same reads, grouped around the first of the two. */
  lemma Regroup(before: seq<seq<bv8>>, first: seq<bv8>, second: seq<bv8>, after: seq<seq<bv8>>)
    ensures before + [first] + ([second] + after) == before + [first, second] + after
  {
    assert [first] + [second] == [first, second];
  }

  /** The same at the real buffer boundary: 1023 spaces, then the two bytes of
      U+00E9 at offsets 1023 and 1024. */
  lemma SplitAtBufferBoundary()
    ensures var st := ByteStream([seq(1023, _ => 0x20) + [0xC3], [0xA9]], false);
      ValidStream(st) && |st.chunks[0]| == BufferSize &&
      WellShaped(Flatten(st.chunks)) && !ReadsText(st.chunks, st.failsAtEnd)
  {
    var spaces: seq<bv8> := seq(1023, _ => 0x20);
    AsciiIsWellShaped(spaces);
    var e9: seq<bv8> := [0xC3, 0xA9];
    assert SequenceLength(e9[0]) == 2 && ContinuationsFollow(e9, 2);
    SplitCharacterMisclassified([], spaces, e9, 1, [], []);
    assert [] + [spaces + e9[..1], e9[1..] + []] + [] == [spaces + e9[..1], e9[1..] + []];
    assert e9[..1] == [0xC3] && e9[1..] + [] == [0xA9];
  }
}
