/** From a histogram to a working Huffman coder: huff_build of c/codec_row_huff.h. */
module HuffmanCodec {
  import opened Arith
  import opened Bits
  import opened Canonical
  import opened Huffman
  import opened HuffmanBuild

  // len is what BuildLengths makes of a histogram.
  ghost predicate LengthsOf(counts: seq<nat>, len: Lengths) {
    && |len| == |counts| && Bounded(len, MAXLEN)
    && (forall s :: 0 <= s < |counts| ==> (len[s] > 0 <==> counts[s] > 0))
    && (|Leaves(counts, |counts|)| >= 2 ==> Kraft(len, MAXLEN) == Pow2(MAXLEN))
    && (|Leaves(counts, |counts|)| == 1 ==> len[Leaves(counts, |counts|)[0]] == 1)
  }

  lemma {:induction false} PresentAreLeaves(counts: seq<nat>, len: Lengths, k: nat)
    requires k <= |counts| == |len| && forall s :: 0 <= s < |counts| ==> (len[s] > 0 <==> counts[s] > 0)
    ensures PresentCount(len, k) == |Leaves(counts, k)|
    ensures |Leaves(counts, k)| == 1 ==> LastPresent(len, k) == Leaves(counts, k)[0]
  {
    if k > 0 {
      PresentAreLeaves(counts, len, k - 1);
    }
  }

  // Every non-empty histogram gives a complete table, and every row over its symbols survives
  // encoding and decoding.
  lemma HistogramRoundTrip(counts: seq<nat>, len: Lengths, row: seq<nat>, s: nat)
    requires LengthsOf(counts, len) && s < |counts| && counts[s] > 0
    requires forall i :: 0 <= i < |row| ==> row[i] < |counts| && counts[row[i]] > 0
    ensures CompleteTable(len) && Encodable(len, row)
    ensures DecodedRow(len, BytesBits(CodedRow(len, row)), |row|) == row
    ensures |CodedRow(len, row)| == (BitCount(len, row) + 7) / 8
  {
    PresentAreLeaves(counts, len, |counts|);
    LeavesComplete(counts, |counts|, s);
    RowRoundTrip(len, row);
  }

  // huff_build: lengths, codes and lookup table of a histogram.
  method Build(counts: seq<nat>) returns (cb: HuffCodebook)
    requires |counts| <= MAXLEN + 1
    ensures fresh(cb) && fresh(cb.lut) && cb.Valid() && LengthsOf(counts, cb.len)
    ensures |Leaves(counts, |counts|)| >= 2 ==> Optimal(counts, cb.len)
    ensures (exists s :: 0 <= s < |counts| && counts[s] > 0) ==> CompleteTable(cb.len)
  {
    var len := BuildLengths(counts);
    cb := new HuffCodebook(len);
    if s :| 0 <= s < |counts| && counts[s] > 0 {
      HistogramRoundTrip(counts, len, [], s);
    }
  }
}
