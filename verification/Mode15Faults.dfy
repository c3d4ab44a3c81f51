/** What c/mode15_reader.c answers for blobs that are not containers: every way a container's bytes can
    be cut short, damaged, or not be what the caller expects, with the status that goes with it. */
module Mode15Faults {
  import opened Bits
  import opened Canonical
  import Huffman
  import opened Nibbles
  import opened Mode15
  import opened Mode15Reader

  const ANY := Caps(0, 0, 0, 0)

  // ---- where everything is ----

  // The header's fields, by position.
  lemma HeaderFields(c: Container)
    requires InRange(c)
    ensures var b, h := Serialize(c), c.head;
            && |b| == 36 + 4 * h.rows + 4 * h.blocks + |c.payload|
            && b[..4] == [77, 72, 48, 49]
            && b[4..8] == LeBytes(h.rows, 4) && b[8..12] == LeBytes(h.cols, 4) && b[12..16] == LeBytes(h.rowsPerBlock, 4)
            && b[16..20] == LeBytes(h.blocks, 4) && b[20..24] == LeBytes(h.crc, 4)
  {
    hide WordBytes, LeBytes, HeaderBytes, Serialize, InRange;
    SerializedParts(c);
    HeaderLayout(c.head);
    HeaderSlices(Serialize(c), HeaderBytes(c.head));
  }

  lemma HeaderSlices(b: seq<byte>, h: seq<byte>)
    requires |h| == 24 <= |b| && b[..24] == h
    ensures b[..4] == h[..4] && b[4..8] == h[4..8] && b[8..12] == h[8..12] && b[12..16] == h[12..16]
    ensures b[16..20] == h[16..20] && b[20..24] == h[20..24]
  {
  }

  // The tables' fields, by position.
  lemma TableFields(c: Container, i: nat)
    requires InRange(c)
    ensures var b, h := Serialize(c), c.head;
            && |b| == 36 + 4 * h.rows + 4 * h.blocks + |c.payload|
            && (i < 8 ==> b[24 + i] == c.lengths[2 * i] + 16 * c.lengths[2 * i + 1])
            && (i <= h.rows ==> b[32 + 4 * i..36 + 4 * i] == LeBytes(c.offsets[i], 4))
            && (i < h.blocks ==> b[36 + 4 * h.rows + 4 * i..40 + 4 * h.rows + 4 * i] == LeBytes(c.blockCrc[i], 4))
            && b[36 + 4 * h.rows + 4 * h.blocks..] == c.payload
  {
    hide WordBytes, LeBytes, HeaderBytes, Serialize, Packed;
    SerializedParts(c);
    var b, h := Serialize(c), c.head;
    if i < 8 {
      LengthAt(c.lengths, i);
      assert b[24 + i] == b[HEADER..OFFSETS][i];
    }
    if i <= h.rows {
      WordAt(b, OFFSETS, c.offsets, i);
    }
    if i < h.blocks {
      WordAt(b, CrcsAt(h), c.blockCrc, i);
    }
  }

  lemma WordAt(b: seq<byte>, at: nat, w: seq<nat>, i: nat)
    requires at + 4 * |w| <= |b| && b[at..at + 4 * |w|] == WordBytes(w) && i < |w|
    ensures b[at + 4 * i..at + 4 * i + 4] == LeBytes(w[i], 4)
  {
    hide WordBytes, LeBytes;
    WordBytesAt(w, i);
    SubSlice(b, at, 4 * |w|, 4 * i, 4);
  }

  lemma HeaderLayout(h: Header)
    ensures var b := HeaderBytes(h);
            && b[..4] == [77, 72, 48, 49]
            && b[4..8] == LeBytes(h.rows, 4) && b[8..12] == LeBytes(h.cols, 4) && b[12..16] == LeBytes(h.rowsPerBlock, 4)
            && b[16..20] == LeBytes(h.blocks, 4) && b[20..24] == LeBytes(h.crc, 4)
  {
    hide WordBytes, LeBytes;
    var w := HeaderWords(h);
    var b := HeaderBytes(h);
    assert b[4..24] == WordBytes(w);
    forall i | 0 <= i < 5
      ensures b[4 + 4 * i..8 + 4 * i] == LeBytes(w[i], 4)
    {
      WordBytesAt(w, i);
      SubSlice(b, 4, 20, 4 * i, 4);
    }
    assert b[4 + 4 * 0..8 + 4 * 0] == LeBytes(w[0], 4) && b[4 + 4 * 1..8 + 4 * 1] == LeBytes(w[1], 4);
    assert b[4 + 4 * 2..8 + 4 * 2] == LeBytes(w[2], 4) && b[4 + 4 * 3..8 + 4 * 3] == LeBytes(w[3], 4);
    assert b[4 + 4 * 4..8 + 4 * 4] == LeBytes(w[4], 4);
    assert b[..4] == Magic() + Version();
  }

  lemma LengthAt(len: Lengths, i: nat)
    requires |len| == NSYM && Bounded(len, Huffman.MAXLEN) && i < 8
    ensures Packed(len)[i] == len[2 * i] + 16 * len[2 * i + 1]
  {
  }

  // What is read of a blob that begins like a container's.
  lemma PrefixView(c: Container, b: seq<byte>, n: nat)
    requires InRange(c) && n <= |b| && n <= |Serialize(c)| && b[..n] == Serialize(c)[..n]
    ensures n >= HEADER ==> HeaderOf(b) == c.head && b[..2] == Magic() && b[2..4] == Version()
    ensures n >= OFFSETS ==> LengthsOf(b) == c.lengths
    ensures n >= CrcsAt(c.head) ==> Words(b, OFFSETS, c.head.rows + 1) == c.offsets
  {
    hide WordBytes, HeaderBytes, Packed, LengthsOf, HeaderOf, Words, Serialize, AllU32;
    var s := Serialize(c);
    SerializedParts(c);
    if n >= HEADER {
      SamePart(b, s, n, 0, HEADER);
      HeaderBack(c.head, b);
    }
    if n >= OFFSETS {
      SamePart(b, s, n, HEADER, OFFSETS);
      LengthsBack(c.lengths, b);
    }
    if n >= CrcsAt(c.head) {
      SamePart(b, s, n, OFFSETS, CrcsAt(c.head));
      WordsBack(c.offsets, b, OFFSETS);
    }
  }

  lemma SamePart(b: seq<byte>, s: seq<byte>, n: nat, i: nat, j: nat)
    requires n <= |b| && n <= |s| && b[..n] == s[..n] && i <= j <= n
    ensures b[i..j] == s[i..j]
  {
    assert b[i..j] == b[..n][i..j] && s[i..j] == s[..n][i..j];
  }

  lemma Whole(c: Container)
    ensures Serialize(c)[..|Serialize(c)|] == Serialize(c)
  {
  }

  // ---- cut short, or followed by more ----

  // Where a container is cut tells how it is refused.
  lemma Truncated(c: Container, n: nat)
    requires WellFormed(c) && n < |Serialize(c)|
    ensures Fault(Serialize(c)[..n], -1, -1, ANY)
         == if n < 24 then TruncatedHeader
            else if n < 32 then TruncatedLengths
            else if n < 36 + 4 * c.head.rows then TruncatedRowOffsets
            else if n < 36 + 4 * c.head.rows + 4 * c.head.blocks then TruncatedBlockCrc
            else LengthMismatch
  {
    hide HeaderOf, LengthsOf, Words, Serialize, GoodTable, Monotone, BlockCount;
    WellFormedInRange(c);
    SerializedParts(c);
    var b := Serialize(c)[..n];
    assert b[..n] == b;
    PrefixView(c, b, n);
  }

  // Anything behind the payload is one byte too many.
  lemma Extended(c: Container, more: seq<byte>)
    requires WellFormed(c) && more != []
    ensures Fault(Serialize(c) + more, -1, -1, ANY) == LengthMismatch
  {
    hide HeaderOf, LengthsOf, Words, Serialize, GoodTable, Monotone, BlockCount;
    WellFormedInRange(c);
    SerializedParts(c);
    var b := Serialize(c) + more;
    Whole(c);
    PrefixView(c, b, |Serialize(c)|);
  }

  // ---- not what the caller expects ----

  // What the caller did not expect, or does not allow, in the order it is looked at.
  lemma Unexpected(c: Container, rows: int, cols: int, caps: Caps)
    requires WellFormed(c)
    ensures rows >= 0 && rows != c.head.rows ==> Fault(Serialize(c), rows, cols, caps) == OMismatch
    ensures (rows < 0 || rows == c.head.rows) && cols >= 0 && cols != c.head.cols ==>
              Fault(Serialize(c), rows, cols, caps) == IMismatch
    ensures (rows < 0 || rows == c.head.rows) && (cols < 0 || cols == c.head.cols)
            && ((caps.rows > 0 && c.head.rows > caps.rows) || (caps.cols > 0 && c.head.cols > caps.cols)
                || (caps.blocks > 0 && c.head.blocks > caps.blocks) || (caps.payload > 0 && |c.payload| > caps.payload))
            ==> Fault(Serialize(c), rows, cols, caps) == CapExceeded
  {
    hide HeaderOf, LengthsOf, Words, Serialize, GoodTable, Monotone, BlockCount;
    WellFormedInRange(c);
    SerializedParts(c);
    Whole(c);
    PrefixView(c, Serialize(c), |Serialize(c)|);
  }

  // ---- damaged ----

  // The first four bytes decide alone.
  lemma WrongMagic(b: seq<byte>, rows: int, cols: int, caps: Caps)
    requires |b| >= 24
    ensures b[0] != 77 || b[1] != 72 ==> Fault(b, rows, cols, caps) == BadMagic
    ensures b[0] == 77 && b[1] == 72 && (b[2] != 48 || b[3] != 49) ==> Fault(b, rows, cols, caps) == VersionMismatch
  {
    hide HeaderOf, IndexFault;
    assert Magic()[0] == 77 && Magic()[1] == 72 && Version()[0] == 48 && Version()[1] == 49;
    assert b[..2] == [b[0], b[1]] && b[2..4] == [b[2], b[3]];
  }

  // The number of blocks of rpb rows that rows make up.
  ghost predicate IsCeil(rows: nat, rpb: nat, blocks: nat) {
    if rows == 0 then blocks == 0 else blocks > 0 && (blocks - 1) * rpb < rows <= blocks * rpb
  }

  lemma CeilIs(rows: nat, rpb: nat, blocks: nat)
    requires rpb > 0 || rows == 0
    ensures IsCeil(rows, rpb, blocks) <==> blocks == BlockCount(Header(rows, 0, rpb, 0, 0))
  {
    if rows > 0 {
      var n := (rows + rpb - 1) / rpb;
      CeilCovers(rows, rpb, n);
      if blocks < n {
        ScaleMono(blocks, n - 1, rpb);
      } else if n < blocks {
        ScaleMono(n, blocks - 1, rpb);
      }
    }
  }

  // Rows need a block size, and as many blocks as it takes.
  lemma WrongBlocks(c: Container)
    requires InRange(c)
    ensures c.head.rows > 0 && c.head.rowsPerBlock == 0 ==> Fault(Serialize(c), -1, -1, ANY) == BadRowsPerBlock
    ensures (c.head.rows > 0 ==> c.head.rowsPerBlock > 0) && !IsCeil(c.head.rows, c.head.rowsPerBlock, c.head.blocks) ==>
              Fault(Serialize(c), -1, -1, ANY) == BlockCountMismatch
  {
    hide HeaderOf, LengthsOf, Words, Serialize, GoodTable, Monotone, IndexFault, IsCeil;
    SerializedParts(c);
    Whole(c);
    PrefixView(c, Serialize(c), |Serialize(c)|);
    if c.head.rows > 0 ==> c.head.rowsPerBlock > 0 {
      CeilIs(c.head.rows, c.head.rowsPerBlock, c.head.blocks);
    }
  }

  // A table that does not tile the windows, a lone symbol with more than one bit, or no table at all
  // where there is something to decode.
  lemma WrongTable(c: Container)
    requires InRange(c) && GoodHeader(c.head)
    requires var n := PresentCount(c.lengths, NSYM);
             || (n >= 2 && !Tiles(c.lengths, Width(c.lengths), Huffman.MAXLEN))
             || (n == 1 && exists i :: 0 <= i < NSYM && c.lengths[i] > 1)
             || (n == 0 && c.head.rows > 0 && c.head.cols > 0)
    ensures Fault(Serialize(c), -1, -1, ANY) == BadLengthTable
  {
    hide HeaderOf, LengthsOf, Words, Serialize, Monotone, Tiles, BlockCount, Kraft;
    SerializedParts(c);
    Whole(c);
    PrefixView(c, Serialize(c), |Serialize(c)|);
    if PresentCount(c.lengths, NSYM) >= 2 {
      ValidationIsExact(c.lengths);
    } else if PresentCount(c.lengths, NSYM) == 1 {
      var i :| 0 <= i < NSYM && c.lengths[i] > 1;
      Huffman.SolePresent(c.lengths, i, NSYM);
    }
  }

  // Row offsets that do not begin with 0, or fall.
  lemma WrongOffsets(c: Container)
    requires InRange(c) && GoodHeader(c.head) && GoodTable(c.head, c.lengths)
    requires c.offsets[0] != 0 || exists i :: 0 < i < |c.offsets| && c.offsets[i] < c.offsets[i - 1]
    ensures Fault(Serialize(c), -1, -1, ANY) == RowOffsetsInvalid
  {
    hide HeaderOf, LengthsOf, Words, Serialize, GoodTable, BlockCount;
    SerializedParts(c);
    Whole(c);
    PrefixView(c, Serialize(c), |Serialize(c)|);
  }
}
