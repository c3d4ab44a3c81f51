/** The M15Reader of c/mode15_reader.c and the int4 decode path of c/glm.c built on it: structural
    open, verify-once CRC checks, row spans, and decoding a whole blob to packed nibbles. */
module Mode15Reader {
  import opened Bits
  import opened Canonical
  import Huffman
  import Nibbles
  import Crc
  import opened Mode15

  datatype BlockState = Unverified | Passed | Failed

  // ---- rows and blocks of a container ----

  lemma {:induction false} MonotoneAt(offsets: seq<nat>, i: nat, j: nat)
    requires Monotone(offsets) && i <= j < |offsets|
    ensures offsets[i] <= offsets[j]
    decreases j
  {
    if i < j {
      MonotoneAt(offsets, i, j - 1);
    }
  }

  // First row of block b, clamped to the row count.
  function BlockStart(h: Header, b: nat): nat {
    if b * h.rowsPerBlock > h.rows then h.rows else b * h.rowsPerBlock
  }

  lemma CeilCovers(x: nat, r: nat, n: nat)
    requires x > 0 && r > 0 && n == (x + r - 1) / r
    ensures n > 0 && n * r >= x && (n - 1) * r < x
  {
    assert x + r - 1 == n * r + (x + r - 1) % r;
    assert (n - 1) * r == n * r - r;
  }

  lemma ScaleMono(a: nat, b: nat, r: nat)
    requires a <= b
    ensures a * r <= b * r
  {
  }

  // The blocks tile the rows: the first starts at row 0, each begins where the one before ends,
  // none is empty, all but the last have the stated number of rows, and the last ends at the last.
  lemma BlocksTileRows(h: Header, b: nat)
    requires GoodHeader(h) && b < h.blocks
    ensures b * h.rowsPerBlock < h.rows && BlockStart(h, 0) == 0 && BlockStart(h, h.blocks) == h.rows
    ensures BlockStart(h, b) < BlockStart(h, b + 1) <= h.rows
    ensures BlockStart(h, b + 1) - BlockStart(h, b) <= h.rowsPerBlock
    ensures b + 1 < h.blocks ==> BlockStart(h, b + 1) - BlockStart(h, b) == h.rowsPerBlock
  {
    CeilCovers(h.rows, h.rowsPerBlock, h.blocks);
    ScaleMono(b, h.blocks - 1, h.rowsPerBlock);
    if b + 1 < h.blocks {
      ScaleMono(b + 1, h.blocks - 1, h.rowsPerBlock);
    }
    assert (b + 1) * h.rowsPerBlock == b * h.rowsPerBlock + h.rowsPerBlock;
  }

  function RowBytes(c: Container, row: nat): seq<byte>
    requires row + 1 < |c.offsets| && c.offsets[row] <= c.offsets[row + 1] <= |c.payload|
  {
    c.payload[c.offsets[row]..c.offsets[row + 1]]
  }

  function BlockBytes(c: Container, b: nat): seq<byte>
    requires BlockStart(c.head, b) < |c.offsets| && BlockStart(c.head, b + 1) < |c.offsets|
    requires c.offsets[BlockStart(c.head, b)] <= c.offsets[BlockStart(c.head, b + 1)] <= |c.payload|
  {
    c.payload[c.offsets[BlockStart(c.head, b)]..c.offsets[BlockStart(c.head, b + 1)]]
  }

  lemma RowInPayload(c: Container, row: nat)
    requires WellFormed(c) && row < c.head.rows
    ensures |c.offsets| == c.head.rows + 1
    ensures c.offsets[row] <= c.offsets[row + 1] <= |c.payload|
  {
    MonotoneAt(c.offsets, row, row + 1);
    MonotoneAt(c.offsets, row + 1, c.head.rows);
  }

  lemma BlockInPayload(c: Container, b: nat)
    requires WellFormed(c) && b < c.head.blocks
    ensures |c.blockCrc| == c.head.blocks
    ensures BlockStart(c.head, b) < |c.offsets| && BlockStart(c.head, b + 1) < |c.offsets|
    ensures c.offsets[BlockStart(c.head, b)] <= c.offsets[BlockStart(c.head, b + 1)] <= |c.payload|
  {
    BlocksTileRows(c.head, b);
    MonotoneAt(c.offsets, BlockStart(c.head, b), BlockStart(c.head, b + 1));
    MonotoneAt(c.offsets, BlockStart(c.head, b + 1), c.head.rows);
  }

  // The bytes of the first k rows, and of the first k blocks, one after another.
  ghost function RowsBytes(c: Container, k: nat): seq<byte>
    requires WellFormed(c) && k <= c.head.rows
  {
    if k == 0 then [] else
      RowInPayload(c, k - 1);
      RowsBytes(c, k - 1) + RowBytes(c, k - 1)
  }

  ghost function BlocksBytes(c: Container, k: nat): seq<byte>
    requires WellFormed(c) && k <= c.head.blocks
  {
    if k == 0 then [] else
      BlockInPayload(c, k - 1);
      BlocksBytes(c, k - 1) + BlockBytes(c, k - 1)
  }

  lemma {:induction false} RowsBytesAre(c: Container, k: nat)
    requires WellFormed(c) && k <= c.head.rows
    ensures |c.offsets| == c.head.rows + 1 && c.offsets[k] <= |c.payload|
    ensures RowsBytes(c, k) == c.payload[..c.offsets[k]]
  {
    MonotoneAt(c.offsets, k, c.head.rows);
    if k > 0 {
      RowsBytesAre(c, k - 1);
      RowInPayload(c, k - 1);
      assert c.payload[..c.offsets[k]] == c.payload[..c.offsets[k - 1]] + c.payload[c.offsets[k - 1]..c.offsets[k]];
    }
  }

  lemma {:induction false} BlocksBytesAre(c: Container, k: nat)
    requires WellFormed(c) && k <= c.head.blocks
    ensures BlockStart(c.head, k) <= c.head.rows && |c.offsets| == c.head.rows + 1
    ensures c.offsets[BlockStart(c.head, k)] <= |c.payload|
    ensures BlocksBytes(c, k) == c.payload[..c.offsets[BlockStart(c.head, k)]]
  {
    hide BlockStart, WellFormed;
    BlockStartIn(c.head, k);
    WellFormedOffsets(c);
    MonotoneAt(c.offsets, BlockStart(c.head, k), c.head.rows);
    if k > 0 {
      BlocksBytesAre(c, k - 1);
      BlockInPayload(c, k - 1);
      JoinHead(c.payload, c.offsets[BlockStart(c.head, k - 1)], c.offsets[BlockStart(c.head, k)]);
    }
  }

  lemma JoinHead(p: seq<byte>, s: nat, e: nat)
    requires s <= e <= |p|
    ensures p[..e] == p[..s] + p[s..e]
  {
  }

  lemma WellFormedOffsets(c: Container)
    requires WellFormed(c)
    ensures Monotone(c.offsets) && |c.offsets| == c.head.rows + 1 && c.offsets[c.head.rows] == |c.payload| && c.offsets[0] == 0
  {
  }

  lemma BlockStartIn(h: Header, k: nat)
    ensures BlockStart(h, k) <= h.rows && BlockStart(h, 0) == 0
  {
  }

  // The rows make up the payload, and so do the blocks: nothing is left over or shared.
  lemma PayloadCovered(c: Container)
    requires WellFormed(c)
    ensures RowsBytes(c, c.head.rows) == c.payload == BlocksBytes(c, c.head.blocks)
  {
    hide RowsBytes, BlocksBytes, BlockStart;
    RowsBytesAre(c, c.head.rows);
    BlocksBytesAre(c, c.head.blocks);
    if c.head.blocks > 0 {
      BlocksTileRows(c.head, c.head.blocks - 1);
    } else {
      NoBlocks(c);
    }
    assert c.payload[..|c.payload|] == c.payload;
  }

  lemma NoBlocks(c: Container)
    requires WellFormed(c) && c.head.blocks == 0
    ensures c.head.rows == 0 && BlockStart(c.head, 0) == 0
  {
    if c.head.rows > 0 {
      CeilCovers(c.head.rows, c.head.rowsPerBlock, c.head.blocks);
    }
  }

  // ---- checksums ----

  function TensorCrc(c: Container): nat {
    Crc.Crc32(IndexBytes(c) + c.payload)
  }

  // The whole-tensor checksum matches.
  predicate Sealed(c: Container) {
    TensorCrc(c) == c.head.crc
  }

  ghost predicate BlockSealed(c: Container, b: nat)
    requires WellFormed(c) && b < c.head.blocks
  {
    BlockInPayload(c, b);
    Crc.Crc32(BlockBytes(c, b)) == c.blockCrc[b]
  }

  // What the tensor CRC covers is the blob from byte 24 on.
  lemma TensorCrcCovers(b: seq<byte>, rows: int, cols: int, caps: Caps)
    requires Fault(b, rows, cols, caps) == Good
    ensures |b| >= PayloadAt(HeaderOf(b)) && TensorCrc(Parsed(b)) == Crc.Crc32(b[HEADER..])
  {
    hide Crc.Crc32, IndexBytes;
    OpenedIsSerialized(b, rows, cols, caps);
    WellFormedInRange(Parsed(b));
    SerializedParts(Parsed(b));
  }

  // Feeding the register two ranges in turn is feeding it their concatenation.
  lemma CrcOfParts(x: seq<byte>, y: seq<byte>)
    ensures Crc.Register(Crc.Register(Crc.Ones(), BytesBits(x)), BytesBits(y)) == Crc.Register(Crc.Ones(), BytesBits(x + y))
  {
    BytesBitsAppend(x, y);
    Crc.RegisterAppend(Crc.Ones(), BytesBits(x), BytesBits(y));
  }

  // Two blobs of the same header that open, differ, and differ only within four consecutive
  // bytes behind it: at most one of them passes the tensor check.
  lemma CorruptionCaught(b: seq<byte>, d: seq<byte>, p: seq<byte>, u: seq<byte>, v: seq<byte>, s: seq<byte>,
                         rows: int, cols: int, caps: Caps)
    requires Fault(b, rows, cols, caps) == Good && Fault(d, rows, cols, caps) == Good
    requires b[..HEADER] == d[..HEADER] && |u| == |v| <= 4 && u != v
    requires b[HEADER..] == p + u + s && d[HEADER..] == p + v + s
    ensures |b| >= PayloadAt(HeaderOf(b)) && |d| >= PayloadAt(HeaderOf(d))
    ensures Sealed(Parsed(b)) ==> !Sealed(Parsed(d))
  {
    hide Crc.Crc32, IndexBytes, Fault, HeaderOf;
    TensorCrcCovers(b, rows, cols, caps);
    TensorCrcCovers(d, rows, cols, caps);
    SameHeader(b, d);
    Crc.CrcDetectsBurst(p, u, v, s);
  }

  // Of two containers with one index whose payloads differ only within four consecutive bytes of a
  // block, at most one passes the check of that block.
  lemma BlockCorruptionCaught(c: Container, d: Container, i: nat, p: seq<byte>, u: seq<byte>, v: seq<byte>, s: seq<byte>)
    requires WellFormed(c) && WellFormed(d) && i < c.head.blocks && d == c.(payload := d.payload)
    requires BlockStart(c.head, i) < |c.offsets| && BlockStart(c.head, i + 1) < |c.offsets|
    requires c.offsets[BlockStart(c.head, i)] <= c.offsets[BlockStart(c.head, i + 1)] <= |c.payload|
    requires |u| == |v| <= 4 && u != v && |d.payload| == |c.payload|
    requires BlockBytes(c, i) == p + u + s && BlockBytes(d, i) == p + v + s
    ensures BlockSealed(c, i) ==> !BlockSealed(d, i)
  {
    hide Crc.Crc32, WellFormed, BlockStart;
    Crc.CrcDetectsBurst(p, u, v, s);
  }

  // What opens and has symbols to decode has a table to decode them with.
  lemma OpenedHasTable(b: seq<byte>, rows: int, cols: int, caps: Caps)
    requires Fault(b, rows, cols, caps) == Good
    ensures |b| >= PayloadAt(HeaderOf(b))
    ensures Parsed(b).head.rows > 0 && Parsed(b).head.cols > 0 ==> Huffman.CompleteTable(Parsed(b).lengths)
  {
    hide HeaderOf, LengthsOf, Huffman.CompleteTable;
    OpenedIsSerialized(b, rows, cols, caps);
  }

  lemma SameHeader(b: seq<byte>, d: seq<byte>)
    requires |b| >= HEADER && |d| >= HEADER && b[..HEADER] == d[..HEADER]
    ensures HeaderOf(b) == HeaderOf(d)
  {
    forall at | at in {4, 8, 12, 16, 20}
      ensures Field(b, at) == Field(d, at)
    {
      SubSlice(b, 0, HEADER, at, 4);
      SubSlice(d, 0, HEADER, at, 4);
    }
  }

  // ---- reading tables ----

  // m15_rd_u32le.
  method ReadU32(b: array<byte>, at: nat) returns (x: nat)
    requires at + 4 <= b.Length
    ensures x == Field(b[..], at)
  {
    x := b[at] as int + 0x100 * b[at + 1] as int + 0x1_0000 * b[at + 2] as int + 0x100_0000 * b[at + 3] as int;
    FourBytes(b[..][at..at + 4]);
  }

  lemma FourBytes(q: seq<byte>)
    requires |q| == 4
    ensures LeValue(q) == q[0] as int + 0x100 * q[1] as int + 0x1_0000 * q[2] as int + 0x100_0000 * q[3] as int
  {
    assert q[1..][1..] == q[2..] && q[2..][1..] == q[3..] && q[3..][1..] == [];
    assert LeValue(q[3..]) == q[3] as int + 256 * LeValue([]) && LeValue([]) == 0;
    assert LeValue(q[2..]) == q[2] as int + 256 * LeValue(q[3..]);
    assert LeValue(q[1..]) == q[1] as int + 256 * LeValue(q[2..]);
  }

  method ReadHeader(b: array<byte>) returns (h: Header)
    requires b.Length >= HEADER
    ensures h == HeaderOf(b[..])
  {
    hide Field;
    var rows := ReadU32(b, 4);
    var cols := ReadU32(b, 8);
    var rpb := ReadU32(b, 12);
    var blocks := ReadU32(b, 16);
    var crc := ReadU32(b, 20);
    h := Header(rows, cols, rpb, blocks, crc);
  }

  method ReadLengths(b: array<byte>) returns (lengths: Lengths)
    requires b.Length >= OFFSETS
    ensures lengths == LengthsOf(b[..])
  {
    lengths := seq(NSYM, _ => 0);
    ghost var p := b[..][HEADER..OFFSETS];
    for k := 0 to LENGTHS_BYTES
      invariant |lengths| == NSYM && p == b[..][HEADER..OFFSETS]
      invariant forall i :: 0 <= i < 2 * k ==> lengths[i] == Nibbles.NibbleAt(p, i)
    {
      var x := b[HEADER + k] as int;
      assert p[k] == b[HEADER + k] && 2 * k / 2 == k && (2 * k + 1) / 2 == k;
      lengths := lengths[2 * k := x % 16][2 * k + 1 := x / 16];
    }
  }

  ghost predicate Rising(w: seq<nat>) {
    forall i :: 0 < i < |w| ==> w[i - 1] <= w[i]
  }

  lemma RisingSnoc(w: seq<nat>, x: nat)
    ensures Rising(w + [x]) <==> Rising(w) && (|w| > 0 ==> w[|w| - 1] <= x)
  {
    var v := w + [x];
    if Rising(v) {
      forall i | 0 < i < |w|
        ensures w[i - 1] <= w[i]
      {
        assert v[i - 1] <= v[i];
      }
      assert |w| > 0 ==> v[|w| - 1] <= v[|w|];
    }
  }

  // Copies the offset table and checks it on the way, counting rows in 32 bits.
  method ReadOffsets(b: array<byte>, rows: nat) returns (w: seq<nat>, bad: bool)
    requires rows < U32 - 1 && OFFSETS + 4 * (rows + 1) <= b.Length
    ensures w == Words(b[..], OFFSETS, rows + 1) && bad == !Monotone(w)
  {
    hide Field;
    w, bad := [], false;
    var prev: nat := 0;
    var r := 0;
    while r <= rows
      invariant |w| == r <= rows + 1 && forall i :: 0 <= i < r ==> w[i] == Field(b[..], OFFSETS + 4 * i)
      invariant prev == if r == 0 then 0 else w[r - 1]
      invariant bad == !Rising(w)
    {
      var cur := ReadU32(b, OFFSETS + r * 4);
      if r > 0 && cur < prev {
        bad := true;
      }
      RisingSnoc(w, cur);
      w := w + [cur];
      prev := cur;
      r := (r + 1) % U32;
    }
    if w[0] != 0 {
      bad := true;
    }
  }

  method ReadWords(b: array<byte>, at: nat, n: nat) returns (w: seq<nat>)
    requires at + 4 * n <= b.Length
    ensures w == Words(b[..], at, n)
  {
    hide Field;
    w := [];
    for r := 0 to n
      invariant |w| == r && forall i :: 0 <= i < r ==> w[i] == Field(b[..], at + 4 * i)
    {
      var x := ReadU32(b, at + r * 4);
      w := w + [x];
    }
  }

  method WriteWords(w: seq<nat>) returns (bytes: seq<byte>)
    ensures bytes == WordBytes(w)
  {
    bytes := [];
    for i := 0 to |w|
      invariant bytes == WordBytes(w[..i])
    {
      assert w[..i + 1][..i] == w[..i];
      bytes := bytes + LeBytes(w[i], 4);
    }
    assert w[..|w|] == w;
  }

  method WriteLengths(lengths: Lengths) returns (bytes: seq<byte>)
    requires |lengths| == NSYM
    ensures bytes == Nibbles.Packed(lengths)
  {
    bytes := [];
    for k := 0 to LENGTHS_BYTES
      invariant |bytes| == k && forall j :: 0 <= j < k ==> bytes[j] == Nibbles.NibbleByte(lengths, j)
    {
      var lo, hi := lengths[2 * k] % 16, lengths[2 * k + 1] % 16;
      bytes := bytes + [lo + 16 * hi];
    }
  }

  // ---- the reader ----

  class M15Reader {
    var isOpen: bool
    var head: Header
    var lengths: Lengths
    var maxlen: nat
    var nPresent: nat
    var rowOffsets: seq<nat>
    var blockCrc: seq<nat>
    var blockState: seq<BlockState>
    var tensorVerified: bool
    var blob: array?<byte>   // borrowed: the payload is a range of it
    var payloadAt: nat
    var payloadLen: nat

    // The container as the reader sees it: its own index, and the payload bytes as they are now.
    ghost function View(): Container
      requires isOpen ==> blob != null && payloadAt + payloadLen <= blob.Length
      reads this, blob
    {
      Container(head, lengths, rowOffsets, blockCrc,
                if isOpen then blob[payloadAt..payloadAt + payloadLen] else [])
    }

    ghost predicate Valid()
      reads this, blob
    {
      isOpen ==>
        && blob != null && payloadAt + payloadLen <= blob.Length
        && WellFormed(View()) && |blockState| == head.blocks
        && maxlen == Width(lengths) && nPresent == PresentCount(lengths, NSYM)
    }

    constructor ()
      ensures Valid() && !isOpen
    {
      isOpen := false;
      blob := null;
    }

    // m15_open_structural: every structural check, in order; nothing hashed.
    method OpenStructural(blob: array<byte>, rows: int, cols: int, caps: Caps) returns (st: Status)
      modifies this
      ensures st == Fault(blob[..], rows, cols, caps) && isOpen == (st == Good) && Valid()
      ensures isOpen ==> this.blob == blob && blob.Length >= PayloadAt(HeaderOf(blob[..])) && View() == Parsed(blob[..])
      ensures isOpen ==> !tensorVerified && forall b :: 0 <= b < |blockState| ==> blockState[b] == Unverified
    {
      hide WellFormed, Fault, HeaderOf, Parsed, Width, PresentCount, View;
      isOpen := false;
      var c, widest, present;
      st, c, widest, present := ReadTables(blob, rows, cols, caps);
      if st != Good {
        return;
      }
      OpenedIsSerialized(blob[..], rows, cols, caps);
      Install(blob, c, Parsed(blob[..]), widest, present);
    }

    // Takes over the tables and borrows the payload.
    method Install(blob: array<byte>, c: Container, ghost full: Container, widest: nat, present: nat)
      requires |c.offsets| == c.head.rows + 1 && blob.Length == PayloadAt(c.head) + c.offsets[c.head.rows]
      requires |c.lengths| == NSYM
      requires full == c.(payload := blob[PayloadAt(c.head)..]) && WellFormed(full)
      requires widest == Width(c.lengths) && present == PresentCount(c.lengths, NSYM)
      modifies this
      ensures isOpen && Valid() && this.blob == blob && View() == full && !tensorVerified
      ensures forall b :: 0 <= b < |blockState| ==> blockState[b] == Unverified
    {
      hide *;
      head, lengths, maxlen, nPresent := c.head, c.lengths, widest, present;
      rowOffsets, blockCrc := c.offsets, c.blockCrc;
      blockState := seq(c.head.blocks, _ => Unverified);
      tensorVerified := false;
      this.blob, payloadAt, payloadLen := blob, PayloadAt(c.head), c.offsets[c.head.rows];
      isOpen := true;
      Installed(c, full);
    }

    lemma Installed(c: Container, full: Container)
      requires isOpen && blob != null && blob.Length == payloadAt + payloadLen
      requires full == c.(payload := blob[payloadAt..]) && WellFormed(full)
      requires Container(head, lengths, rowOffsets, blockCrc, []) == c.(payload := [])
      requires |blockState| == head.blocks && |lengths| == NSYM
      requires maxlen == Width(lengths) && nPresent == PresentCount(lengths, NSYM)
      ensures Valid() && View() == full
    {
      hide WellFormed, Width, PresentCount;
      assert blob[payloadAt..payloadAt + payloadLen] == blob[payloadAt..];
    }

    // m15_verify_tensor_once: the whole-tensor CRC, checked until it has passed once.
    method VerifyTensorOnce() returns (st: Status)
      requires Valid()
      modifies this`tensorVerified
      ensures Valid() && (isOpen ==> View() == old(View()))
      ensures st == if !isOpen then NotOpen
                    else if old(tensorVerified) || Sealed(View()) then Good
                    else TensorCrcMismatch
      ensures tensorVerified == (old(tensorVerified) || st == Good)
    {
      hide TensorCrc, WellFormed, Width, PresentCount;
      if !isOpen {
        return NotOpen;
      }
      if tensorVerified {
        return Good;
      }
      var got := TensorCrcNow();
      if got != head.crc {
        return TensorCrcMismatch;
      }
      tensorVerified := true;
      st := Good;
    }

    // The CRC of the rebuilt index followed by the payload.
    method TensorCrcNow() returns (got: nat)
      requires Valid() && isOpen
      ensures got == TensorCrc(View())
    {
      hide WellFormed, Width, PresentCount, IndexBytes, Crc.Register, Crc.Xor, Crc.Ones, FromBits, BytesBits;
      var index := IndexOf();
      var state := Crc.Update(Crc.Ones(), index);
      var payload := blob[payloadAt..payloadAt + payloadLen];
      state := Crc.Update(state, payload);
      got := FromBits(Crc.Xor(state, Crc.Ones()));
      CrcOfParts(index, payload);
    }

    // The index bytes, rebuilt from the reader's own tables.
    method IndexOf() returns (index: seq<byte>)
      requires Valid() && isOpen
      ensures index == IndexBytes(View())
    {
      var x := WriteLengths(lengths);
      var o := WriteWords(rowOffsets);
      var k := WriteWords(blockCrc);
      index := x + o + k;
    }

    // m15_block_row_range.
    method BlockRowRange(b: nat) returns (r0: nat, r1: nat)
      requires Valid() && isOpen && b < head.blocks
      ensures r0 == BlockStart(head, b) && r1 == BlockStart(head, b + 1) && r0 < r1 <= head.rows
    {
      BlocksTileRows(head, b);
      r0 := b * head.rowsPerBlock;
      r1 := (b + 1) * head.rowsPerBlock;
      if r1 > head.rows {
        r1 := head.rows;
      }
    }

    // m15_verify_block_once: a block is hashed at most once, and the verdict sticks.
    method VerifyBlockOnce(b: nat) returns (st: Status)
      requires Valid()
      modifies this`blockState
      ensures Valid() && (isOpen ==> View() == old(View()))
      ensures st == if !isOpen then NotOpen
                    else if b >= head.blocks then BadArgument
                    else match old(blockState[b])
                         case Passed => Good
                         case Failed => BlockCrcMismatch
                         case Unverified => if BlockSealed(View(), b) then Good else BlockCrcMismatch
      ensures blockState == if isOpen && b < head.blocks
                            then old(blockState)[b := if st == Good then Passed else Failed]
                            else old(blockState)
    {
      hide BlockSealed, WellFormed, Width, PresentCount;
      if !isOpen {
        return NotOpen;
      }
      if b >= head.blocks {
        return BadArgument;
      }
      match blockState[b] {
        case Passed => return Good;
        case Failed => return BlockCrcMismatch;
        case Unverified =>
      }
      var good := BlockGood(b);
      if good {
        blockState := blockState[b := Passed];
        return Good;
      }
      blockState := blockState[b := Failed];
      st := BlockCrcMismatch;
    }

    // Hashes the bytes of block b.
    method BlockGood(b: nat) returns (good: bool)
      requires Valid() && isOpen && b < head.blocks
      ensures good == BlockSealed(View(), b)
    {
      hide Crc.Crc32, WellFormed, Width, PresentCount, BlockStart;
      ghost var c := View();
      BlockInPayload(c, b);
      var r0, r1 := BlockRowRange(b);
      var s0, s1 := rowOffsets[r0], rowOffsets[r1];
      PayloadSlice(s0, s1);
      var got := Crc.Crc32Of(blob[payloadAt + s0..payloadAt + s1]);
      good := got == blockCrc[b];
    }

    lemma PayloadSlice(s0: nat, s1: nat)
      requires isOpen && blob != null && payloadAt + payloadLen <= blob.Length && s0 <= s1 <= payloadLen
      ensures View().payload[s0..s1] == blob[payloadAt + s0..payloadAt + s1]
    {
      SubSlice(blob[..], payloadAt, payloadLen, s0, s1 - s0);
    }

    // m15_get_row_span: where a row's bytes are.
    method GetRowSpan(row: nat) returns (st: Status, at: nat, n: nat)
      requires Valid()
      ensures st == if !isOpen then NotOpen else if row >= head.rows then BadArgument else Good
      ensures st == Good ==>
                && row + 1 < |View().offsets| && View().offsets[row] <= View().offsets[row + 1] <= |View().payload|
                && at + n <= blob.Length && blob[at..at + n] == RowBytes(View(), row)
    {
      hide WellFormed, Width, PresentCount;
      at, n := 0, 0;
      if !isOpen {
        return NotOpen, at, n;
      }
      if row >= head.rows {
        return BadArgument, at, n;
      }
      ghost var c := View();
      RowInPayload(c, row);
      at := payloadAt + rowOffsets[row];
      n := rowOffsets[row + 1] - rowOffsets[row];
      PayloadSlice(rowOffsets[row], rowOffsets[row + 1]);
      st := Good;
    }

    // m15_close.
    method Close()
      modifies this
      ensures Valid() && !isOpen
    {
      isOpen := false;
      blob := null;
    }
  }

  // The checks of a structural open; on success the header and tables, without the payload. Endless
  // stands for the source's loop over rows that does not end.
  method ReadTables(blob: array<byte>, rows: int, cols: int, caps: Caps)
      returns (st: Status, c: Container, widest: nat, present: nat)
    ensures st == Fault(blob[..], rows, cols, caps)
    ensures st == Good ==>
              && blob.Length >= PayloadAt(HeaderOf(blob[..]))
              && |c.offsets| == c.head.rows + 1 && |c.lengths| == NSYM
              && blob.Length == PayloadAt(c.head) + c.offsets[c.head.rows]
              && Parsed(blob[..]) == c.(payload := blob[PayloadAt(c.head)..])
              && widest == Width(c.lengths) && present == PresentCount(c.lengths, NSYM)
  {
    hide Field, WordBytes, ValidTable, Monotone, GoodHeader, HeaderOf, LengthsOf, BlockCount, Words, HeaderFault;
    c, widest, present := Container(Header(0, 0, 0, 0, 0), [], [], [], []), 0, 0;
    if blob.Length < HEADER {
      st := TruncatedHeader;
      return;
    }
    var h := ReadHeader(blob);
    st := CheckHeader(blob, h, rows, cols, caps);
    if st != Good {
      return;
    }
    if blob.Length < OFFSETS {
      st := TruncatedLengths;
      return;
    }
    var len := ReadLengths(blob);
    var ok;
    ok, widest, present := LengthsValid(len);
    if !ok || (present == 0 && h.rows != 0 && h.cols != 0) {
      st := BadLengthTable;
      return;
    }
    if blob.Length < CrcsAt(h) {
      st := TruncatedRowOffsets;
      return;
    }
    if h.rows == U32 - 1 {
      st := Endless;
      return;
    }
    RowsInRange(blob[..]);
    var offsets, bad := ReadOffsets(blob, h.rows);
    if bad {
      st := RowOffsetsInvalid;
      return;
    }
    if Over(caps.payload, offsets[h.rows]) {
      st := CapExceeded;
      return;
    }
    if blob.Length < PayloadAt(h) {
      st := TruncatedBlockCrc;
      return;
    }
    if blob.Length != PayloadAt(h) + offsets[h.rows] {
      st := LengthMismatch;
      return;
    }
    var crcs := ReadWords(blob, CrcsAt(h), h.blocks);
    c := Container(h, len, offsets, crcs, []);
    assert blob[..][PayloadAt(h)..] == blob[PayloadAt(h)..];
  }

  lemma RowsInRange(b: seq<byte>)
    requires |b| >= HEADER
    ensures HeaderOf(b).rows < U32
  {
    FieldForth(b, 4);
  }

  method CheckHeader(blob: array<byte>, h: Header, rows: int, cols: int, caps: Caps) returns (st: Status)
    requires blob.Length >= HEADER && h == HeaderOf(blob[..])
    ensures st == HeaderFault(blob[..], rows, cols, caps)
  {
    hide HeaderOf;
    assert blob[..][..2] == [blob[0], blob[1]] && blob[..][2..4] == [blob[2], blob[3]];
    assert Magic()[0] == 'M' as int && Magic()[1] == 'H' as int && Version()[0] == '0' as int && Version()[1] == '1' as int;
    if blob[0] != 'M' as int || blob[1] != 'H' as int {
      return BadMagic;
    }
    if blob[2] != '0' as int || blob[3] != '1' as int {
      return VersionMismatch;
    }
    if rows >= 0 && h.rows != rows {
      return OMismatch;
    }
    if cols >= 0 && h.cols != cols {
      return IMismatch;
    }
    if Over(caps.rows, h.rows) || Over(caps.cols, h.cols) || Over(caps.blocks, h.blocks) {
      return CapExceeded;
    }
    var expected := 0;
    if h.rows != 0 {
      if h.rowsPerBlock == 0 {
        return BadRowsPerBlock;
      }
      expected := (h.rows + h.rowsPerBlock - 1) / h.rowsPerBlock;
    }
    st := if h.blocks != expected then BlockCountMismatch else Good;
  }

  // m15_open_full: structural open, then every CRC; bad is the first failing block.
  method OpenFull(r: M15Reader, blob: array<byte>, rows: int, cols: int, caps: Caps) returns (st: Status, bad: nat)
    modifies r
    ensures r.Valid() && (Fault(blob[..], rows, cols, caps) != Good ==> st == Fault(blob[..], rows, cols, caps))
    ensures Fault(blob[..], rows, cols, caps) == Good ==>
              && blob.Length >= PayloadAt(HeaderOf(blob[..])) && WellFormed(Parsed(blob[..]))
              && var c := Parsed(blob[..]);
                 && (st == TensorCrcMismatch <==> !Sealed(c))
                 && (st == Good <==> Sealed(c) && forall b :: 0 <= b < c.head.blocks ==> BlockSealed(c, b))
                 && (st == BlockCrcMismatch ==> bad < c.head.blocks && !BlockSealed(c, bad)
                                                && forall b :: 0 <= b < bad ==> BlockSealed(c, b))
  {
    hide Fault, HeaderOf, Sealed, WellFormed, BlockSealed;
    bad := 0;
    st := r.OpenStructural(blob, rows, cols, caps);
    if st != Good {
      return;
    }
    st := r.VerifyTensorOnce();
    if st != Good {
      return;
    }
    st, bad := VerifyBlocks(r, Parsed(blob[..]));
  }

  // Every block of a freshly opened reader, in order, up to the first that fails.
  method VerifyBlocks(r: M15Reader, ghost c: Container) returns (st: Status, bad: nat)
    requires r.Valid() && r.isOpen && r.View() == c && WellFormed(c)
    requires forall b :: 0 <= b < |r.blockState| ==> r.blockState[b] == Unverified
    modifies r`blockState
    ensures r.Valid() && (st == Good || st == BlockCrcMismatch)
    ensures st == Good ==> forall b :: 0 <= b < c.head.blocks ==> BlockSealed(c, b)
    ensures st == BlockCrcMismatch ==> bad < c.head.blocks && !BlockSealed(c, bad)
                                       && forall b :: 0 <= b < bad ==> BlockSealed(c, b)
  {
    hide WellFormed, BlockSealed, Width, PresentCount;
    bad := 0;
    var n := r.head.blocks;
    for b := 0 to n
      invariant r.Valid() && r.isOpen && r.View() == c && n == c.head.blocks == |r.blockState|
      invariant forall i :: 0 <= i < b ==> BlockSealed(c, i)
      invariant forall i :: b <= i < n ==> r.blockState[i] == Unverified
    {
      st := r.VerifyBlockOnce(b);
      if st != Good {
        return st, b;
      }
    }
    st := Good;
  }
}
