/**
 * How the coordinator cuts the content of an append into segments, one per
 * block (NameNode.NameNodeHandler.append, the block count and the
 * segmenting loop), in Java int arithmetic.
 *
 * The formula for the block count is not a ceiling division: it yields two
 * blocks for contents between half a block and a whole block, and one block
 * for anything longer. The as-written behaviour is modelled by BlockCount,
 * Segments and SplitIntoSegments; ChunksOf is the evidently intended split
 * into consecutive pieces of at most one block each.
 */
module Chunking {
  import opened JavaString

  /** The block size used for segmenting: 4 MiB, counted in characters. */
  const MB: int := 4194304

  /**
   * blockCount: len * 2 is computed in int arithmetic (it overflows for
   * len >= 2^30), and the division is Java's, which on positive operands is
   * the same as Dafny's.
   */
  function BlockCount(len: nat): int
    requires len <= INT_MAX
  {
    if Int32Wrap(len * 2) > MB then MB / len + 1 else 1
  }

  /** Start and end of segment i: i * MB and min((i + 1) * MB, len). */
  function SegmentStart(i: nat): int {
    i * MB
  }

  function SegmentEnd(len: nat, i: nat): int {
    if (i + 1) * MB < len then (i + 1) * MB else len
  }

  /** content.substring(start, end) does not throw: start is at most end. */
  predicate SegmentFits(len: nat, i: nat) {
    SegmentStart(i) <= SegmentEnd(len, i)
  }

  function Segment(content: string, i: nat): string
    requires SegmentFits(|content|, i)
  {
    content[SegmentStart(i)..SegmentEnd(|content|, i)]
  }

  /**
   * The segments the loop collects, or None when one of its substring calls
   * throws StringIndexOutOfBoundsException (which ends the append before any
   * block is allocated).
   */
  function Segments(content: string): Option<seq<string>>
    requires |content| <= INT_MAX
  {
    var count := BlockCount(|content|);
    if count >= 0 && forall i :: 0 <= i < count ==> SegmentFits(|content|, i) then
      Some(seq(count, i requires 0 <= i < count && SegmentFits(|content|, i) => Segment(content, i)))
    else None
  }

  /** The concatenation of the segments. */
  function Concat(parts: seq<string>): string {
    if parts == [] then "" else parts[0] + Concat(parts[1..])
  }

  /** The segmenting loop of append, collecting substrings into a list. */
  method SplitIntoSegments(content: string) returns (segments: Option<seq<string>>)
    requires |content| <= INT_MAX
    ensures segments == Segments(content)
  {
    BlockCountCases(|content|);
    var blockCount := BlockCount(|content|);
    var contentSegments: seq<string> := [];
    var i := 0;
    while i < blockCount
      invariant 0 <= i <= if blockCount < 0 then 0 else blockCount
      invariant forall k :: 0 <= k < i ==> SegmentFits(|content|, k)
      invariant |contentSegments| == i
      invariant forall k :: 0 <= k < i ==> contentSegments[k] == Segment(content, k)
    {
      var startIdx := i * MB;
      var endIdx := if (i + 1) * MB < |content| then (i + 1) * MB else |content|;
      if startIdx > endIdx {
        assert !SegmentFits(|content|, i);
        return None;
      }
      contentSegments := contentSegments + [content[startIdx..endIdx]];
      i := i + 1;
    }
    segments := Some(contentSegments);
    assert contentSegments == Segments(content).value;
  }

  // ---------------------------------------------------------------------
  // The block count and the segments as written
  // ---------------------------------------------------------------------

  /**
   * The block count is 2 exactly for MB/2 < len <= MB and 1 otherwise: 1 when
   * len * 2 <= MB, 1 when len > MB (MB / len is 0 there), and 1 when the
   * doubling overflows to a negative int.
   */
  lemma BlockCountCases(len: nat)
    requires len <= INT_MAX
    ensures BlockCount(len) == if MB / 2 < len <= MB then 2 else 1
  {
    if len < 0x4000_0000 {
      assert Int32Wrap(len * 2) == len * 2;
      if MB / 2 < len <= MB {
        DivisionIsOne(len);
      } else if len > MB {
        assert MB / len == 0;
      }
    } else {
      assert len * 2 - TWO_TO_32 < 0;
      assert (len * 2) % TWO_TO_32 == len * 2;
      assert Int32Wrap(len * 2) == len * 2 - TWO_TO_32;
    }
  }

  lemma DivisionIsOne(len: nat)
    requires MB / 2 < len <= MB
    ensures MB / len == 1
  {
    var q := MB / len;
    assert MB == q * len + MB % len && 0 <= MB % len < len;
    if q >= 2 {
      MulMonotone(2, q, len);
      assert false;
    } else if q <= 0 {
      MulMonotone(q, 0, len);
      assert false;
    }
  }

  lemma MulMonotone(a: int, b: int, c: nat)
    requires a <= b
    ensures a * c <= b * c
  {
  }

  /**
   * The four cases of the segmenting loop: one segment equal to the content
   * when it fits in half a block; the content followed by an empty segment
   * when it is exactly one block long; an out-of-range substring for longer
   * contents shorter than one block; and only the first MB characters when
   * the content is longer than one block.
   */
  lemma SegmentsCases(content: string)
    requires |content| <= INT_MAX
    ensures |content| * 2 <= MB ==> Segments(content) == Some([content])
    ensures |content| == MB ==> Segments(content) == Some([content, ""])
    ensures MB / 2 < |content| < MB ==> Segments(content) == None
    ensures |content| > MB ==> Segments(content) == Some([content[..MB]])
  {
    var len := |content|;
    BlockCountCases(len);
    if MB / 2 < len < MB {
      assert !SegmentFits(len, 1);
    } else if len == MB {
      assert SegmentFits(len, 0) && SegmentFits(len, 1);
      var segs := Segments(content).value;
      assert |segs| == 2 && segs[0] == content && segs[1] == "";
      assert segs == [content, ""];
    } else {
      assert SegmentFits(len, 0);
      var segs := Segments(content).value;
      assert |segs| == 1 && segs[0] == content[..SegmentEnd(len, 0)];
      if len > MB {
        assert segs == [content[..MB]];
      } else {
        assert content[..len] == content;
        assert segs == [content];
      }
    }
  }

  /**
   * Whenever the as-written segmenting succeeds there are one or two
   * segments, and each is at most one block long.
   */
  lemma SegmentsBounded(content: string)
    requires |content| <= INT_MAX
    ensures Segments(content).Some? ==>
      var segs := Segments(content).value;
      1 <= |segs| <= 2 && forall k :: 0 <= k < |segs| ==> |segs[k]| <= MB
  {
    SegmentsCases(content);
    BlockCountCases(|content|);
  }

  /**
   * As written, every content longer than half a block, except one exactly a
   * block long, is not stored whole: either the append throws, or the stored
   * segments miss the tail of the content.
   */
  lemma AsWrittenLosesContent(content: string)
    requires MB / 2 < |content| <= INT_MAX && |content| != MB
    ensures Segments(content) == None || Concat(Segments(content).value) != content
  {
    SegmentsCases(content);
    if |content| > MB {
      assert Concat([content[..MB]]) == content[..MB] + Concat([]);
    }
  }

  // ---------------------------------------------------------------------
  // The evidently intended split
  // ---------------------------------------------------------------------

  /**
   * Consecutive pieces of MB characters, the last one possibly shorter; an
   * empty content still gets one (empty) block, as in the original.
   */
  function ChunksOf(content: string): (chunks: seq<string>)
    ensures |chunks| >= 1
    ensures forall k :: 0 <= k < |chunks| ==> |chunks[k]| <= MB
    decreases |content|
  {
    if |content| <= MB then [content] else [content[..MB]] + ChunksOf(content[MB..])
  }

  /** The chunks put back together give the content. */
  lemma {:induction false} ChunksOfConcat(content: string)
    ensures Concat(ChunksOf(content)) == content
    decreases |content|
  {
    if |content| <= MB {
      assert Concat([content]) == content + Concat([]);
    } else {
      ChunksOfConcat(content[MB..]);
      var chunks := ChunksOf(content);
      assert chunks[1..] == ChunksOf(content[MB..]);
      assert content == content[..MB] + content[MB..];
    }
  }

  /** The number of chunks is the ceiling of len / MB (and 1 for the empty content). */
  lemma {:induction false} ChunksOfCount(content: string)
    ensures |ChunksOf(content)| == if |content| == 0 then 1 else (|content| + MB - 1) / MB
    decreases |content|
  {
    if |content| > MB {
      ChunksOfCount(content[MB..]);
      var n := |content| - MB;
      assert (n + MB - 1) / MB + 1 == (n + MB + MB - 1) / MB;
    }
  }

  /** Only the last chunk is shorter than a block. */
  lemma {:induction false} ChunksOfFull(content: string)
    ensures forall k :: 0 <= k < |ChunksOf(content)| - 1 ==> |ChunksOf(content)[k]| == MB
    decreases |content|
  {
    if |content| > MB {
      ChunksOfFull(content[MB..]);
    }
  }

  /** Up to half a block, the intended split and the one as written agree. */
  lemma ChunksAgreeOnSmallContent(content: string)
    requires |content| * 2 <= MB
    ensures Segments(content) == Some(ChunksOf(content))
  {
    SegmentsCases(content);
  }
}
