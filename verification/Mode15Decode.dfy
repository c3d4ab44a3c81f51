/** mode15_decode_i4 of c/glm.c: from a container blob to the packed int4 matrix, and the container
    a matrix of symbols is stored as. */
module Mode15Decode {
  import opened Arith
  import opened Bits
  import opened Canonical
  import opened Huffman
  import Nibbles
  import opened Mode15
  import opened Mode15Reader

  // Row i as the row decoder reads it from its own bytes.
  ghost function DecodedSymbols(c: Container, i: nat): (row: seq<nat>)
    requires WellFormed(c) && i < c.head.rows
    ensures |row| == c.head.cols
  {
    RowInPayload(c, i);
    DecodedRow(c.lengths, BytesBits(RowBytes(c, i)), c.head.cols)
  }

  // The first k rows, packed two symbols a byte.
  ghost function Matrix(c: Container, k: nat): (m: seq<byte>)
    requires WellFormed(c) && k <= c.head.rows
    ensures |m| == k * ((c.head.cols + 1) / 2)
  {
    if k == 0 then [] else
      assert k * ((c.head.cols + 1) / 2) == (k - 1) * ((c.head.cols + 1) / 2) + (c.head.cols + 1) / 2;
      Matrix(c, k - 1) + Nibbles.Packed(DecodedSymbols(c, k - 1))
  }

  ghost predicate Opens(b: seq<byte>, rows: int, cols: int) {
    && 0 <= rows < U32 && 0 <= cols < U32
    && Fault(b, rows, cols, Caps(rows, cols, 0, 0)) == Good
  }

  lemma OpensShape(b: seq<byte>, rows: int, cols: int)
    requires Opens(b, rows, cols)
    ensures |b| >= PayloadAt(HeaderOf(b)) && WellFormed(Parsed(b))
    ensures Parsed(b).head.rows == rows && Parsed(b).head.cols == cols
  {
    hide Fault, HeaderOf, WellFormed;
    OpenedIsSerialized(b, rows, cols, Caps(rows, cols, 0, 0));
  }

  // out begins with the first rows of c's matrix.
  ghost predicate HoldsMatrix(out: seq<byte>, c: Container, rows: nat) {
    && WellFormed(c) && rows == c.head.rows
    && |Matrix(c, rows)| <= |out| && out[..|Matrix(c, rows)|] == Matrix(c, rows)
  }

  // What is left of a 32-bit number in the source's int.
  function AsInt(x: nat): int {
    if x < 0x8000_0000 then x else x - U32
  }

  // Decodes a blob; fails (or, for a blob of 2^32 - 1 rows, does not return) exactly when the blob is
  // structurally faulty, has another shape, or fails its whole-tensor checksum. With 2^31 columns or
  // more it succeeds without decoding anything.
  method DecodeI4(blob: array<byte>, rows: int, cols: int, out: array<byte>) returns (ok: bool)
    requires blob != out && (rows >= 0 && cols >= 0 ==> out.Length >= rows * ((cols + 1) / 2))
    modifies out
    ensures ok ==> Opens(blob[..], rows, cols)
    ensures Opens(blob[..], rows, cols) ==>
              && blob.Length >= PayloadAt(HeaderOf(blob[..]))
              && ok == Sealed(Parsed(blob[..]))
              && (ok && AsInt(cols) >= 0 ==> HoldsMatrix(out[..], Parsed(blob[..]), rows))
    ensures !ok || AsInt(cols) < 0 ==> out[..] == old(out[..])
  {
    hide Fault, HeaderOf, WellFormed, Sealed, HoldsMatrix, Parsed;
    if rows < 0 || cols < 0 || rows > 0xFFFF_FFFF || cols > 0xFFFF_FFFF {
      return false;
    }
    var r := new M15Reader();
    var st := r.OpenStructural(blob, rows, cols, Caps(rows, cols, 0, 0));
    if st != Good {
      return false;
    }
    OpensShape(blob[..], rows, cols);
    st := r.VerifyTensorOnce();
    if st != Good {
      r.Close();
      return false;
    }
    ghost var c := Parsed(blob[..]);
    LengthsBounded(c);
    var cb := new HuffCodebook(r.lengths);
    // With a negative bound the loops over the columns of every row do nothing.
    if AsInt(cols) >= 0 {
      DecodeRows(r, cb, rows, cols, out, c);
    }
    r.Close();
    ok := true;
  }

  lemma LengthsBounded(c: Container)
    requires WellFormed(c)
    ensures Bounded(c.lengths, MAXLEN)
  {
  }

  method DecodeRows(r: M15Reader, cb: HuffCodebook, rows: nat, cols: nat, out: array<byte>, ghost c: Container)
    requires r.Valid() && r.isOpen && r.blob != out && r.View() == c && cb.Valid() && cb.len == c.lengths
    requires WellFormed(c) && c.head.rows == rows && c.head.cols == cols && out.Length >= rows * ((cols + 1) / 2)
    modifies out
    ensures HoldsMatrix(out[..], c, rows)
  {
    hide WellFormed, DecodedRow, RowBytes, CodesOf, Matrix, LutEntry, DecodedSymbols;
    MatrixEmpty(c);
    var rb := (cols + 1) / 2;
    var sym := new nat[if cols > 0 then cols else 1];
    for row := 0 to rows
      invariant r.Valid() && r.isOpen && r.View() == c && cb.Valid() && fresh(sym)
      invariant |Matrix(c, row)| <= |out[..]| && out[..][..|Matrix(c, row)|] == Matrix(c, row)
    {
      RowStep(row, rows, rb);
      DecodeRowAt(r, cb, row, cols, sym, out, row * rb, c);
      Grown(c, row, out[..]);
    }
  }

  lemma MatrixEmpty(c: Container)
    requires WellFormed(c)
    ensures Matrix(c, 0) == []
  {
  }

  lemma RowStep(row: nat, rows: nat, rb: nat)
    requires row < rows
    ensures row * rb + rb == (row + 1) * rb <= rows * rb
  {
  }

  lemma Grown(c: Container, row: nat, out: seq<byte>)
    requires WellFormed(c) && row < c.head.rows
    requires |Matrix(c, row)| <= |out| && out[..|Matrix(c, row)|] == Matrix(c, row)
    requires var rb := (c.head.cols + 1) / 2;
             row * rb + rb <= |out| && out[row * rb..row * rb + rb] == Nibbles.Packed(DecodedSymbols(c, row))
    ensures |Matrix(c, row + 1)| <= |out| && out[..|Matrix(c, row + 1)|] == Matrix(c, row + 1)
  {
    hide WellFormed, DecodedSymbols;
    var at, rb := row * ((c.head.cols + 1) / 2), (c.head.cols + 1) / 2;
    assert out[..at + rb] == out[..at] + out[at..at + rb];
  }

  // One row: its span, decoded, packed into place.
  method DecodeRowAt(r: M15Reader, cb: HuffCodebook, row: nat, cols: nat, sym: array<nat>, out: array<byte>, at: nat,
                     ghost c: Container)
    requires r.Valid() && r.isOpen && r.blob != out && r.View() == c && cb.Valid() && cb.len == c.lengths
    requires WellFormed(c) && row < c.head.rows && c.head.cols == cols <= sym.Length
    requires at + (cols + 1) / 2 <= out.Length
    modifies sym, out
    ensures out[at..at + (cols + 1) / 2] == Nibbles.Packed(DecodedSymbols(c, row))
    ensures forall i :: 0 <= i < at ==> out[i] == old(out[i])
  {
    hide WellFormed, DecodedRow, RowBytes, CodesOf;
    var st, p, n := r.GetRowSpan(row);
    cb.DecodeRow(r.blob[p..p + n], cols, sym);
    Nibbles.PackNibbles(sym[..cols], out, at);
  }

  // ---- storing a matrix ----

  // The matrix fits the format: rows of one width over a complete table.
  ghost predicate Storable(len: Lengths, rows: seq<seq<nat>>, cols: nat, rpb: nat) {
    && |len| == NSYM && CompleteTable(len) && |rows| < U32 - 1 && cols < U32 && 0 < rpb < U32
    && (forall i :: 0 <= i < |rows| ==> |rows[i]| == cols && Encodable(len, rows[i]))
    && |Coded(len, rows, |rows|)| < U32
  }

  ghost function Coded(len: Lengths, rows: seq<seq<nat>>, k: nat): seq<byte>
    requires k <= |rows| && Bounded(len, MAXLEN) && forall i :: 0 <= i < |rows| ==> RowOver(len, rows[i])
  {
    if k == 0 then [] else Coded(len, rows, k - 1) + CodedRow(len, rows[k - 1])
  }

  ghost function Offsets(len: Lengths, rows: seq<seq<nat>>): (o: seq<nat>)
    requires Bounded(len, MAXLEN) && forall i :: 0 <= i < |rows| ==> RowOver(len, rows[i])
    ensures |o| == |rows| + 1
  {
    seq(|rows| + 1, i requires 0 <= i < |rows| + 1 => |Coded(len, rows, i)|)
  }

  lemma {:induction false} CodedSlice(len: Lengths, rows: seq<seq<nat>>, i: nat, k: nat)
    requires i < k <= |rows| && Bounded(len, MAXLEN) && forall i :: 0 <= i < |rows| ==> RowOver(len, rows[i])
    ensures |Coded(len, rows, i)| <= |Coded(len, rows, i + 1)| <= |Coded(len, rows, k)|
    ensures Coded(len, rows, k)[|Coded(len, rows, i)|..|Coded(len, rows, i + 1)|] == CodedRow(len, rows[i])
  {
    hide CodedRow, RowOver;
    if i < k - 1 {
      CodedSlice(len, rows, i, k - 1);
      SliceOfHead(Coded(len, rows, k - 1), CodedRow(len, rows[k - 1]), |Coded(len, rows, i)|, |Coded(len, rows, i + 1)|);
    }
  }

  // c stores the rows: their codes one after another, their offsets, and any checksums.
  ghost predicate Stores(c: Container, len: Lengths, rows: seq<seq<nat>>, cols: nat, rpb: nat)
    requires Storable(len, rows, cols, rpb)
  {
    && c.head.rows == |rows| && c.head.cols == cols && c.head.rowsPerBlock == rpb
    && c.head.blocks == BlockCount(c.head) && c.head.crc < U32
    && c.lengths == len && c.offsets == Offsets(len, rows) && c.payload == Coded(len, rows, |rows|)
    && |c.blockCrc| == c.head.blocks && AllU32(c.blockCrc)
  }

  lemma StorableRows(len: Lengths, rows: seq<seq<nat>>, cols: nat, rpb: nat)
    requires Storable(len, rows, cols, rpb)
    ensures Bounded(len, MAXLEN) && forall i :: 0 <= i < |rows| ==> RowOver(len, rows[i])
  {
  }

  lemma StoredIsWellFormed(c: Container, len: Lengths, rows: seq<seq<nat>>, cols: nat, rpb: nat)
    requires Storable(len, rows, cols, rpb) && Stores(c, len, rows, cols, rpb)
    ensures WellFormed(c)
  {
    hide CompleteTable, CodedRow, RowOver, Encodable, BlockCount;
    StorableRows(len, rows, cols, rpb);
    var o := c.offsets;
    forall i | 0 < i < |o|
      ensures o[i - 1] <= o[i] < U32
    {
      CodedSlice(len, rows, i - 1, |rows|);
      assert o[i - 1] == |Coded(len, rows, i - 1)| && o[i] == |Coded(len, rows, i)|;
    }
    BlocksFit(c.head);
    TableFits(c, len);
  }

  lemma TableFits(c: Container, len: Lengths)
    requires c.lengths == len && |len| == NSYM && CompleteTable(len)
    ensures GoodTable(c.head, len)
  {
  }

  lemma BlocksFit(h: Header)
    requires h.rows < U32 && h.rowsPerBlock > 0
    ensures BlockCount(h) <= h.rows
  {
    if h.rows > 0 {
      CeilCovers(h.rows, h.rowsPerBlock, BlockCount(h));
      if BlockCount(h) > h.rows {
        ScaleMono(h.rows, BlockCount(h) - 1, h.rowsPerBlock);
        ScaleMono(1, h.rowsPerBlock, h.rows);
      }
    }
  }

  // End to end: a stored matrix with the right tensor checksum opens, passes the check, and every
  // row decodes to the row stored.
  lemma StoredRoundTrip(c: Container, len: Lengths, rows: seq<seq<nat>>, cols: nat, rpb: nat, i: nat)
    requires Storable(len, rows, cols, rpb) && Stores(c, len, rows, cols, rpb) && Sealed(c)
    ensures WellFormed(c) && Opens(Serialize(c), |rows|, cols) && |Serialize(c)| >= PayloadAt(HeaderOf(Serialize(c)))
    ensures Parsed(Serialize(c)) == c && Sealed(Parsed(Serialize(c)))
    ensures i < |rows| ==> DecodedSymbols(c, i) == rows[i]
  {
    StoredIsWellFormed(c, len, rows, cols, rpb);
    hide CompleteTable, CodedRow, RowOver, Sealed, Fault, WellFormed, Serialize, Parsed;
    OpensSerialized(c, |rows|, cols, Caps(|rows|, cols, 0, 0));
    if i < |rows| {
      StoredRow(c, len, rows, cols, rpb, i);
    }
  }

  lemma StoredRow(c: Container, len: Lengths, rows: seq<seq<nat>>, cols: nat, rpb: nat, i: nat)
    requires Storable(len, rows, cols, rpb) && Stores(c, len, rows, cols, rpb) && WellFormed(c) && i < |rows|
    ensures DecodedSymbols(c, i) == rows[i]
  {
    hide CompleteTable, CodedRow, RowOver, WellFormed, DecodedRow, Coded;
    StorableRows(len, rows, cols, rpb);
    CodedSlice(len, rows, i, |rows|);
    RowInPayload(c, i);
    assert c.offsets[i] == |Coded(len, rows, i)| && c.offsets[i + 1] == |Coded(len, rows, i + 1)|;
    assert RowBytes(c, i) == CodedRow(len, rows[i]);
    RowRoundTrip(len, rows[i]);
  }

  // Every storable matrix has a container with the right tensor checksum.
  lemma Sealable(len: Lengths, rows: seq<seq<nat>>, cols: nat, rpb: nat) returns (c: Container)
    requires Storable(len, rows, cols, rpb)
    ensures Stores(c, len, rows, cols, rpb) && Sealed(c)
  {
    hide CompleteTable, RowOver, Encodable, Crc.Crc32, Coded, IndexBytes, BlockCount;
    StorableRows(len, rows, cols, rpb);
    var head := Header(|rows|, cols, rpb, 0, 0);
    BlocksFit(head);
    SameBlocks(head);
    var blocks := BlockCount(head);
    var open := Container(head.(blocks := blocks), len, Offsets(len, rows), seq(blocks, _ => 0), Coded(len, rows, |rows|));
    CrcFits(open);
    c := open.(head := open.head.(crc := TensorCrc(open)));
    SameIndex(open, c);
    SameBlocks(c.head);
  }

  lemma SameBlocks(h: Header)
    ensures forall n: nat, crc: nat :: BlockCount(h.(blocks := n, crc := crc)) == BlockCount(h)
  {
  }

  lemma CrcFits(c: Container)
    ensures TensorCrc(c) < U32
  {
    Pow32();
  }

  lemma SameIndex(c: Container, d: Container)
    requires d == c.(head := d.head)
    ensures IndexBytes(d) == IndexBytes(c)
  {
  }

  // ---- a matrix too wide for an int ----

  function WideLengths(): (len: Lengths)
    ensures |len| == NSYM && len[0] == 1 && len[1] == 1 && forall i :: 2 <= i < NSYM ==> len[i] == 0
  {
    [1, 1, 0, 0, 0, 0, 0, 0, 0, 0, 0, 0, 0, 0, 0, 0]
  }

  // 2^31 times the symbol 1.
  function WideRow(): (row: seq<nat>)
    ensures |row| == 0x8000_0000 && forall i :: 0 <= i < |row| ==> row[i] == 1
  {
    seq(0x8000_0000, _ => 1)
  }

  lemma {:induction false} NoneFrom2(len: Lengths, k: nat)
    requires len == WideLengths() && 2 <= k <= NSYM
    ensures PresentCount(len, k) == 2 && KraftTo(len, k, MAXLEN) == 2 * Pow2(MAXLEN - 1)
  {
    if k > 2 {
      NoneFrom2(len, k - 1);
    } else {
      assert PresentCount(len, 0) == 0 && PresentCount(len, 1) == 1;
      assert KraftTo(len, 0, MAXLEN) == 0 && KraftTo(len, 1, MAXLEN) == Pow2(MAXLEN - 1);
    }
  }

  lemma WideTable()
    ensures CompleteTable(WideLengths())
  {
    hide PresentCount, KraftTo, Pow2, WideLengths;
    NoneFrom2(WideLengths(), NSYM);
    TwoHalves();
  }

  lemma TwoHalves()
    ensures 2 * Pow2(MAXLEN - 1) == Pow2(MAXLEN)
  {
  }

  lemma {:induction false} BitsOfOnes(len: Lengths, row: seq<nat>)
    requires len == WideLengths() && forall i :: 0 <= i < |row| ==> row[i] == 1
    ensures BitCount(len, row) == |row|
  {
    hide WideLengths;
    if row != [] {
      BitsOfOnes(len, row[1..]);
    }
  }

  lemma WideIsStorable()
    ensures Storable(WideLengths(), [WideRow()], 0x8000_0000, 1)
  {
    hide CompleteTable, WideRow, WideLengths, CodedRow, Coded, Encodable, RowOver, BitCount, Bounded, DecodedRow;
    var len, row := WideLengths(), WideRow();
    WideTable();
    TableBounded(len);
    WideEncodable();
    BitsOfOnes(len, row);
    RowRoundTrip(len, row);
    OneCoded(len, row);
  }

  lemma WideEncodable()
    ensures Encodable(WideLengths(), WideRow()) && RowOver(WideLengths(), WideRow())
  {
    hide WideLengths, WideRow;
  }

  lemma TableBounded(len: Lengths)
    requires CompleteTable(len)
    ensures Bounded(len, MAXLEN)
  {
  }

  lemma OneCoded(len: Lengths, row: seq<nat>)
    requires Bounded(len, MAXLEN) && RowOver(len, row)
    ensures |Coded(len, [row], 1)| == |CodedRow(len, row)|
  {
    hide CodedRow;
    assert Coded(len, [row], 0) == [];
  }

  // A blob that opens and passes its check, of one row of 2^31 symbols 1: it is answered as decoded
  // with nothing written, while the matrix begins with 0x11.
  lemma WideDecodesNothing() returns (b: seq<byte>)
    ensures Opens(b, 1, 0x8000_0000) && |b| >= PayloadAt(HeaderOf(b)) && Sealed(Parsed(b)) && AsInt(0x8000_0000) < 0
    ensures forall out: seq<byte> :: HoldsMatrix(out, Parsed(b), 1) ==> out[0] == 0x11
  {
    hide Opens, Sealed, Parsed, Serialize, WideRow, WideLengths, Stores, HeaderOf, Storable;
    var len, rows := WideLengths(), [WideRow()];
    WideIsStorable();
    var c := Sealable(len, rows, 0x8000_0000, 1);
    StoredRoundTrip(c, len, rows, 0x8000_0000, 1, 0);
    b := Serialize(c);
    forall out: seq<byte> | HoldsMatrix(out, c, 1)
      ensures out[0] == 0x11
    {
      WideMatrix(out, c);
    }
  }

  lemma WideMatrix(out: seq<byte>, c: Container)
    requires HoldsMatrix(out, c, 1) && DecodedSymbols(c, 0) == WideRow()
    ensures out[0] == 0x11
  {
    hide WideRow, WellFormed, DecodedSymbols;
    var row := WideRow();
    assert Matrix(c, 0) == [];
    assert Matrix(c, 1) == Nibbles.Packed(row);
    assert Nibbles.NibbleByte(row, 0) == 0x11;
    assert out[0] == out[..|Matrix(c, 1)|][0];
  }
}
