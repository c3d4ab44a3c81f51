/** The mode-1.5 tensor container read by c/mode15_reader.c: what a well-formed container is, its
    bytes, the first fault an arbitrary blob shows, and that a blob shows no fault exactly when it
    is the serialization of a well-formed container. */
module Mode15 {
  import opened Arith
  import opened Bits
  import opened Canonical
  import Huffman
  import opened Nibbles

  const HEADER := 24
  const LENGTHS_BYTES := 8
  const NSYM := 16
  const U32 := 0x1_0000_0000

  datatype Status =
    | Good
    | TruncatedHeader | BadMagic | VersionMismatch | OMismatch | IMismatch | CapExceeded
    | BadRowsPerBlock | BlockCountMismatch | TruncatedLengths | BadLengthTable
    | TruncatedRowOffsets | RowOffsetsInvalid | TruncatedBlockCrc | LengthMismatch
    | TensorCrcMismatch | BlockCrcMismatch
    | BadArgument | NotOpen
    | Endless   // no status of the source: its call does not return

  // Bounds the caller puts on header fields, 0 meaning uncapped.
  datatype Caps = Caps(rows: nat, cols: nat, blocks: nat, payload: nat)

  predicate Over(cap: nat, x: nat) {
    cap != 0 && x > cap
  }

  datatype Header = Header(rows: nat, cols: nat, rowsPerBlock: nat, blocks: nat, crc: nat)

  datatype Container = Container(head: Header, lengths: Lengths, offsets: seq<nat>, blockCrc: seq<nat>, payload: seq<byte>)

  // ---- length tables ----

  // The table can be decoded with: empty, or a codebook.
  ghost predicate ValidTable(len: Lengths) {
    && Bounded(len, Huffman.MAXLEN)
    && (PresentCount(len, |len|) > 0 ==> Huffman.CompleteTable(len))
  }

  // Validation is exact: with two or more symbols present, a table of lengths up to 15 is valid
  // exactly when the canonical codes leave no lookup cell unfilled and fill none twice.
  lemma ValidationIsExact(len: Lengths)
    requires Bounded(len, Huffman.MAXLEN) && PresentCount(len, |len|) >= 2
    ensures ValidTable(len) <==> Tiles(len, Width(len), Huffman.MAXLEN)
  {
    WidthBounds(len);
    TilesIffKraft(len, Width(len), Huffman.MAXLEN);
  }

  lemma WidthBounds(len: Lengths)
    requires Bounded(len, Huffman.MAXLEN)
    ensures Bounded(len, Width(len)) && Width(len) <= Huffman.MAXLEN
  {
  }

  // m15_lengths_valid.
  method LengthsValid(lengths: Lengths) returns (ok: bool, widest: nat, present: nat)
    ensures ok == ValidTable(lengths)
    ensures ok ==> widest == Width(lengths) && present == PresentCount(lengths, |lengths|)
  {
    present, widest := 0, 0;
    var soleLen := -1;
    var kraftSum := 0;
    for s := 0 to |lengths|
      invariant forall t :: 0 <= t < s ==> lengths[t] <= Huffman.MAXLEN
      invariant present == PresentCount(lengths, s) && widest == MaxLen(lengths, s)
      invariant present == 1 ==> soleLen == lengths[Huffman.LastPresent(lengths, s)]
      invariant kraftSum == SumTo(lengths, s)
    {
      var l := lengths[s];
      if l == 0 {
        continue;
      }
      if l > Huffman.MAXLEN {
        return false, widest, present;
      }
      present := present + 1;
      if l > widest {
        widest := l;
      }
      if present == 1 {
        soleLen := l;
      }
      kraftSum := kraftSum + Pow2(Huffman.MAXLEN - l);
    }
    SumIsKraft(lengths, |lengths|);
    if present == 0 {
      widest := 1;
      NoneWide(lengths, |lengths|);
      return true, 1, 0;
    }
    if present == 1 {
      SoleWidth(lengths, |lengths|);
      if soleLen != 1 {
        return false, widest, present;
      }
      return true, 1, 1;
    }
    SomeWide(lengths, |lengths|);
    ok := kraftSum == Pow2(Huffman.MAXLEN);
  }

  // The sum the validator accumulates, lengths beyond 15 counting nothing.
  ghost function SumTo(len: Lengths, k: nat): nat
    requires k <= |len|
  {
    if k == 0 then 0
    else SumTo(len, k - 1) + if 0 < len[k - 1] <= Huffman.MAXLEN then Pow2(Huffman.MAXLEN - len[k - 1]) else 0
  }

  lemma {:induction false} SumIsKraft(len: Lengths, k: nat)
    requires k <= |len| && Bounded(len, Huffman.MAXLEN)
    ensures SumTo(len, k) == KraftTo(len, k, Huffman.MAXLEN)
  {
    if k > 0 {
      SumIsKraft(len, k - 1);
    }
  }

  lemma {:induction false} NoneWide(len: Lengths, k: nat)
    requires k <= |len| && PresentCount(len, k) == 0
    ensures MaxLen(len, k) == 0
  {
    if k > 0 {
      NoneWide(len, k - 1);
    }
  }

  lemma {:induction false} SomeWide(len: Lengths, k: nat)
    requires k <= |len| && PresentCount(len, k) > 0
    ensures MaxLen(len, k) > 0
  {
    if PresentCount(len, k - 1) > 0 {
      SomeWide(len, k - 1);
    }
  }

  lemma {:induction false} SoleWidth(len: Lengths, k: nat)
    requires k <= |len| && PresentCount(len, k) == 1
    ensures MaxLen(len, k) == len[Huffman.LastPresent(len, k)] > 0
  {
    if len[k - 1] == 0 {
      SoleWidth(len, k - 1);
    } else {
      NoneWide(len, k - 1);
    }
  }

  // ---- tables of 32-bit words ----

  function Field(b: seq<byte>, at: nat): nat
    requires at + 4 <= |b|
  {
    LeValue(b[at..at + 4])
  }

  function Words(b: seq<byte>, at: nat, n: nat): (w: seq<nat>)
    requires at + 4 * n <= |b|
    ensures |w| == n && forall i :: 0 <= i < n ==> w[i] == Field(b, at + 4 * i)
  {
    seq(n, i requires 0 <= i < n => Field(b, at + 4 * i))
  }

  function WordBytes(w: seq<nat>): (b: seq<byte>)
    ensures |b| == 4 * |w|
  {
    if w == [] then [] else WordBytes(w[..|w| - 1]) + LeBytes(w[|w| - 1], 4)
  }

  ghost predicate AllU32(w: seq<nat>) {
    forall i :: 0 <= i < |w| ==> w[i] < U32
  }

  lemma {:induction false} WordBytesAt(w: seq<nat>, i: nat)
    requires i < |w|
    ensures WordBytes(w)[4 * i..4 * i + 4] == LeBytes(w[i], 4)
  {
    var n := |w| - 1;
    if i < n {
      WordBytesAt(w[..n], i);
      assert WordBytes(w)[4 * i..4 * i + 4] == WordBytes(w[..n])[4 * i..4 * i + 4];
    }
  }

  // A table written at some offset is read back.
  lemma WordsBack(w: seq<nat>, b: seq<byte>, at: nat)
    requires AllU32(w) && at + 4 * |w| <= |b| && b[at..at + 4 * |w|] == WordBytes(w)
    ensures Words(b, at, |w|) == w
  {
    hide WordBytes, Field, LeBytes;
    forall i | 0 <= i < |w|
      ensures Field(b, at + 4 * i) == w[i]
    {
      WordBack(w, b, at, i);
    }
  }

  lemma WordBack(w: seq<nat>, b: seq<byte>, at: nat, i: nat)
    requires AllU32(w) && at + 4 * |w| <= |b| && b[at..at + 4 * |w|] == WordBytes(w) && i < |w|
    ensures Field(b, at + 4 * i) == w[i]
  {
    hide WordBytes, Field, LeBytes;
    WordBytesAt(w, i);
    SubSlice(b, at, 4 * |w|, 4 * i, 4);
    FieldIs(b, at + 4 * i, w[i]);
  }

  lemma FieldIs(b: seq<byte>, at: nat, x: nat)
    requires at + 4 <= |b| && x < U32 && b[at..at + 4] == LeBytes(x, 4)
    ensures Field(b, at) == x
  {
    LeBack32(x);
  }

  lemma SubSlice(b: seq<byte>, at: nat, n: nat, i: nat, k: nat)
    requires at + n <= |b| && i + k <= n
    ensures b[at..at + n][i..i + k] == b[at + i..at + i + k]
  {
    var x, y := b[at..at + n][i..i + k], b[at + i..at + i + k];
    forall j | 0 <= j < k
      ensures x[j] == y[j]
    {
      assert x[j] == b[at..at + n][i + j] && y[j] == b[at + i + j];
    }
    assert |x| == |y|;
  }

  lemma FieldForth(b: seq<byte>, at: nat)
    requires at + 4 <= |b|
    ensures LeBytes(Field(b, at), 4) == b[at..at + 4] && Field(b, at) < U32
  {
    LeForth(b[at..at + 4]);
    Pow32();
  }

  // A table read is written back as it was.
  lemma {:induction false} WordsForth(b: seq<byte>, at: nat, n: nat)
    requires at + 4 * n <= |b|
    ensures WordBytes(Words(b, at, n)) == b[at..at + 4 * n] && AllU32(Words(b, at, n))
    decreases n
  {
    hide Field, LeBytes;
    if n > 0 {
      WordsForth(b, at, n - 1);
      FieldForth(b, at + 4 * (n - 1));
      assert Words(b, at, n)[..n - 1] == Words(b, at, n - 1);
      SplitSlice(b, at, at + 4 * (n - 1), at + 4 * n);
      FieldsInRange(b, at, n);
    }
  }

  lemma FieldsInRange(b: seq<byte>, at: nat, n: nat)
    requires at + 4 * n <= |b|
    ensures AllU32(Words(b, at, n))
  {
    hide Field;
    forall i | 0 <= i < n
      ensures Words(b, at, n)[i] < U32
    {
      FieldForth(b, at + 4 * i);
    }
  }

  lemma SplitSlice(b: seq<byte>, i: nat, j: nat, k: nat)
    requires i <= j <= k <= |b|
    ensures b[i..k] == b[i..j] + b[j..k]
  {
  }

  // ---- containers ----

  function BlockCount(h: Header): nat {
    if h.rows == 0 || h.rowsPerBlock == 0 then 0 else (h.rows + h.rowsPerBlock - 1) / h.rowsPerBlock
  }

  ghost predicate Monotone(offsets: seq<nat>) {
    && |offsets| > 0 && offsets[0] == 0
    && forall i :: 0 < i < |offsets| ==> offsets[i - 1] <= offsets[i]
  }

  // What the source's loops over rows hold after k steps in their 32-bit counter.
  function Counter(k: nat): (r: nat)
    ensures r < U32
  {
    if k == 0 then 0 else (Counter(k - 1) + 1) % U32
  }

  lemma {:induction false} CounterIs(k: nat)
    requires k < U32
    ensures Counter(k) == k
  {
    if k > 0 {
      CounterIs(k - 1);
    }
  }

  // The loop over rows 0 to O leaves off if and only if O is not the last 32-bit number.
  lemma RowLoopEnds(O: nat)
    requires O < U32
    ensures (exists k: nat :: Counter(k) > O) <==> O != U32 - 1
  {
    if O != U32 - 1 {
      CounterIs(O + 1);
      assert Counter(O + 1) > O;
    }
  }

  ghost predicate GoodHeader(h: Header) {
    && h.rows < U32 - 1 && h.cols < U32 && h.rowsPerBlock < U32 && h.blocks < U32 && h.crc < U32
    && (h.rows > 0 ==> h.rowsPerBlock > 0)
    && h.blocks == BlockCount(h)
  }

  ghost predicate GoodTable(h: Header, len: Lengths) {
    && |len| == NSYM && ValidTable(len)
    && (PresentCount(len, NSYM) == 0 ==> h.rows == 0 || h.cols == 0)
  }

  ghost predicate WellFormed(c: Container) {
    && GoodHeader(c.head) && GoodTable(c.head, c.lengths)
    && |c.offsets| == c.head.rows + 1 && AllU32(c.offsets) && Monotone(c.offsets)
    && c.offsets[c.head.rows] == |c.payload|
    && |c.blockCrc| == c.head.blocks && AllU32(c.blockCrc)
  }

  // The tables have their sizes, and everything fits its field.
  ghost predicate InRange(c: Container) {
    && AllU32(HeaderWords(c.head)) && |c.lengths| == NSYM && Bounded(c.lengths, Huffman.MAXLEN)
    && |c.offsets| == c.head.rows + 1 && AllU32(c.offsets) && |c.blockCrc| == c.head.blocks && AllU32(c.blockCrc)
  }

  lemma WellFormedInRange(c: Container)
    requires WellFormed(c)
    ensures InRange(c)
  {
    hide Monotone;
    HeaderInRange(c.head);
  }

  // The caller's expectations: a negative shape means any.
  predicate Expected(c: Container, rows: int, cols: int, caps: Caps) {
    && (rows >= 0 ==> c.head.rows == rows) && (cols >= 0 ==> c.head.cols == cols)
    && (caps.rows > 0 ==> c.head.rows <= caps.rows) && (caps.cols > 0 ==> c.head.cols <= caps.cols)
    && (caps.blocks > 0 ==> c.head.blocks <= caps.blocks) && (caps.payload > 0 ==> |c.payload| <= caps.payload)
  }

  function Magic(): (m: seq<byte>)
    ensures |m| == 2
  {
    ['M' as int, 'H' as int]
  }

  function Version(): (m: seq<byte>)
    ensures |m| == 2
  {
    ['0' as int, '1' as int]
  }

  function HeaderWords(h: Header): (w: seq<nat>)
    ensures |w| == 5
  {
    [h.rows, h.cols, h.rowsPerBlock, h.blocks, h.crc]
  }

  function HeaderBytes(h: Header): (b: seq<byte>)
    ensures |b| == HEADER
  {
    Magic() + Version() + WordBytes(HeaderWords(h))
  }

  // The length, offset and block-CRC tables, as bytes.
  function IndexBytes(c: Container): (b: seq<byte>)
    ensures |b| == (|c.lengths| + 1) / 2 + 4 * |c.offsets| + 4 * |c.blockCrc|
  {
    Packed(c.lengths) + WordBytes(c.offsets) + WordBytes(c.blockCrc)
  }

  function Serialize(c: Container): seq<byte> {
    HeaderBytes(c.head) + (IndexBytes(c) + c.payload)
  }

  // ---- parsing ----

  function HeaderOf(b: seq<byte>): Header
    requires |b| >= HEADER
  {
    Header(Field(b, 4), Field(b, 8), Field(b, 12), Field(b, 16), Field(b, 20))
  }

  // The sixteen 4-bit lengths at b[24..32].
  function LengthsOf(b: seq<byte>): (len: Lengths)
    requires |b| >= HEADER + LENGTHS_BYTES
    ensures |len| == NSYM
  {
    seq(NSYM, i requires 0 <= i < NSYM => NibbleAt(b[HEADER..HEADER + LENGTHS_BYTES], i))
  }

  const OFFSETS := HEADER + LENGTHS_BYTES

  function CrcsAt(h: Header): nat {
    OFFSETS + 4 * (h.rows + 1)
  }

  function PayloadAt(h: Header): nat {
    CrcsAt(h) + 4 * h.blocks
  }

  function Parsed(b: seq<byte>): Container
    requires |b| >= HEADER && |b| >= PayloadAt(HeaderOf(b))
  {
    var h := HeaderOf(b);
    Container(h, LengthsOf(b), Words(b, OFFSETS, h.rows + 1), Words(b, CrcsAt(h), h.blocks), b[PayloadAt(h)..])
  }

  // Faults of the 24-byte header, in the order they are looked for.
  function HeaderFault(b: seq<byte>, rows: int, cols: int, caps: Caps): Status
    requires |b| >= HEADER
  {
    var h := HeaderOf(b);
    if b[..2] != Magic() then BadMagic
    else if b[2..4] != Version() then VersionMismatch
    else if rows >= 0 && h.rows != rows then OMismatch
    else if cols >= 0 && h.cols != cols then IMismatch
    else if Over(caps.rows, h.rows) || Over(caps.cols, h.cols) || Over(caps.blocks, h.blocks) then CapExceeded
    else if h.rows > 0 && h.rowsPerBlock == 0 then BadRowsPerBlock
    else if h.blocks != BlockCount(h) then BlockCountMismatch
    else Good
  }

  // Faults of the tables behind a faultless header.
  ghost function IndexFault(b: seq<byte>, caps: Caps): Status
    requires |b| >= HEADER
  {
    var h := HeaderOf(b);
    if |b| < OFFSETS then TruncatedLengths
    else if !GoodTable(h, LengthsOf(b)) then BadLengthTable
    else if |b| < CrcsAt(h) then TruncatedRowOffsets
    else if h.rows == U32 - 1 then Endless
    else if !Monotone(Words(b, OFFSETS, h.rows + 1)) then RowOffsetsInvalid
    else if Over(caps.payload, Words(b, OFFSETS, h.rows + 1)[h.rows]) then CapExceeded
    else if |b| < PayloadAt(h) then TruncatedBlockCrc
    else if |b| != PayloadAt(h) + Words(b, OFFSETS, h.rows + 1)[h.rows] then LengthMismatch
    else Good
  }

  // The first fault of a blob.
  ghost function Fault(b: seq<byte>, rows: int, cols: int, caps: Caps): Status {
    if |b| < HEADER then TruncatedHeader
    else if HeaderFault(b, rows, cols, caps) != Good then HeaderFault(b, rows, cols, caps)
    else IndexFault(b, caps)
  }

  // ---- a blob has no fault exactly when it is a serialized container ----

  lemma HeaderBack(h: Header, b: seq<byte>)
    requires AllU32(HeaderWords(h)) && |b| >= HEADER && b[..HEADER] == HeaderBytes(h)
    ensures HeaderOf(b) == h && b[..2] == Magic() && b[2..4] == Version()
  {
    hide WordBytes, Field, BlockCount;
    var w := HeaderWords(h);
    assert b[4..24] == b[..HEADER][4..] == WordBytes(w);
    WordsBack(w, b, 4);
    assert Words(b, 4, 5)[0] == Field(b, 4 + 4 * 0) && Words(b, 4, 5)[1] == Field(b, 4 + 4 * 1);
    assert Words(b, 4, 5)[2] == Field(b, 4 + 4 * 2) && Words(b, 4, 5)[3] == Field(b, 4 + 4 * 3);
    assert Words(b, 4, 5)[4] == Field(b, 4 + 4 * 4);
    assert b[..2] == b[..HEADER][..2] && b[2..4] == b[..HEADER][2..4];
  }

  lemma HeaderInRange(h: Header)
    requires GoodHeader(h)
    ensures AllU32(HeaderWords(h))
  {
  }

  lemma HeaderForth(b: seq<byte>)
    requires |b| >= HEADER && b[..2] == Magic() && b[2..4] == Version()
    ensures HeaderBytes(HeaderOf(b)) == b[..HEADER] && AllU32(HeaderWords(HeaderOf(b)))
  {
    hide WordBytes, Field;
    WordsForth(b, 4, 5);
    assert Words(b, 4, 5) == HeaderWords(HeaderOf(b));
    assert b[..HEADER] == b[..2] + b[2..4] + b[4..24];
  }

  lemma LengthsBack(len: Lengths, b: seq<byte>)
    requires |len| == NSYM && Bounded(len, Huffman.MAXLEN)
    requires |b| >= OFFSETS && b[HEADER..OFFSETS] == Packed(len)
    ensures LengthsOf(b) == len
  {
    forall i | 0 <= i < NSYM
      ensures LengthsOf(b)[i] == len[i]
    {
      UnpackPacked(len, i);
    }
  }

  lemma LengthsForth(b: seq<byte>)
    requires |b| >= OFFSETS
    ensures Packed(LengthsOf(b)) == b[HEADER..OFFSETS]
  {
    var p := b[HEADER..OFFSETS];
    forall k | 0 <= k < LENGTHS_BYTES
      ensures Packed(LengthsOf(b))[k] == p[k]
    {
      RepackByte(LengthsOf(b), p, k);
    }
  }

  lemma RepackByte(len: Lengths, p: seq<byte>, k: nat)
    requires |len| == NSYM && |p| == LENGTHS_BYTES && k < |p|
    requires forall i :: 0 <= i < NSYM ==> len[i] == NibbleAt(p, i)
    ensures NibbleByte(len, k) == p[k]
  {
    assert len[2 * k] == NibbleAt(p, 2 * k) && len[2 * k + 1] == NibbleAt(p, 2 * k + 1);
  }

  // Where the parts of a serialized container are.
  lemma SerializedParts(c: Container)
    requires InRange(c)
    ensures var b := Serialize(c);
            && |b| == PayloadAt(c.head) + |c.payload|
            && b[..HEADER] == HeaderBytes(c.head)
            && b[HEADER..OFFSETS] == Packed(c.lengths)
            && b[OFFSETS..CrcsAt(c.head)] == WordBytes(c.offsets)
            && b[CrcsAt(c.head)..PayloadAt(c.head)] == WordBytes(c.blockCrc)
            && b[PayloadAt(c.head)..] == c.payload
            && b[HEADER..] == IndexBytes(c) + c.payload
  {
    hide WordBytes, HeaderBytes, Packed, GoodHeader, ValidTable, Monotone, AllU32, HeaderBytes;
    var x, o, k := Packed(c.lengths), WordBytes(c.offsets), WordBytes(c.blockCrc);
    assert |x| == LENGTHS_BYTES;
    assert Serialize(c) == HeaderBytes(c.head) + (x + o + k + c.payload);
    Five(HeaderBytes(c.head), x, o, k, c.payload);
  }

  lemma Five(h: seq<byte>, x: seq<byte>, o: seq<byte>, k: seq<byte>, p: seq<byte>)
    ensures var b, i, j, l := h + (x + o + k + p), |h| + |x|, |h| + |x| + |o|, |h| + |x| + |o| + |k|;
            && b[..|h|] == h && b[|h|..i] == x && b[i..j] == o && b[j..l] == k && b[l..] == p
            && b[|h|..] == x + o + k + p
  {
    Middle(h, x, o + k + p);
    Middle(h + x, o, k + p);
    Middle(h + x + o, k, p);
    Reassociate(h, x, o, k, p);
    BehindFirst(h, x + o + k + p);
  }

  lemma BehindFirst(a: seq<byte>, z: seq<byte>)
    ensures (a + z)[|a|..] == z
  {
  }

  lemma Reassociate(h: seq<byte>, x: seq<byte>, o: seq<byte>, k: seq<byte>, p: seq<byte>)
    ensures var b := h + (x + o + k + p);
            b == h + x + (o + k + p) && b == (h + x) + o + (k + p) && b == (h + x + o) + k + p
  {
    Three(x + o, k, p);
    Three(x, o, k + p);
    Three(h, x, o + (k + p));
    Three(h + x, o, k + p);
    Three(h + x + o, k, p);
    Three(o, k, p);
  }

  lemma Three(a: seq<byte>, b: seq<byte>, c: seq<byte>)
    ensures (a + b) + c == a + (b + c)
  {
  }

  lemma Middle(a: seq<byte>, m: seq<byte>, z: seq<byte>)
    ensures var b := a + m + z; b[..|a|] == a && b[|a|..|a| + |m|] == m && b[|a| + |m|..] == z
  {
  }

  // Opening a serialized container gives it back.
  lemma OpensSerialized(c: Container, rows: int, cols: int, caps: Caps)
    requires WellFormed(c) && Expected(c, rows, cols, caps)
    ensures var b := Serialize(c);
            && Fault(b, rows, cols, caps) == Good
            && HeaderOf(b) == c.head && Parsed(b) == c
  {
    var b := Serialize(c);
    WellFormedInRange(c);
    SerializedParts(c);
    PartsBack(c, b);
    hide Serialize, WordBytes, Packed, Words, HeaderBytes, HeaderOf, LengthsOf, GoodTable;
  }

  // The parts of a blob that are those of a container.
  lemma PartsBack(c: Container, b: seq<byte>)
    requires InRange(c) && |b| == PayloadAt(c.head) + |c.payload|
    requires b[..HEADER] == HeaderBytes(c.head) && b[HEADER..OFFSETS] == Packed(c.lengths)
    requires b[OFFSETS..CrcsAt(c.head)] == WordBytes(c.offsets)
    requires b[CrcsAt(c.head)..PayloadAt(c.head)] == WordBytes(c.blockCrc)
    ensures HeaderOf(b) == c.head && b[..2] == Magic() && b[2..4] == Version() && LengthsOf(b) == c.lengths
    ensures Words(b, OFFSETS, c.head.rows + 1) == c.offsets && Words(b, CrcsAt(c.head), c.head.blocks) == c.blockCrc
  {
    hide WordBytes, HeaderBytes, Packed, LengthsOf, HeaderOf, Words, AllU32;
    HeaderBack(c.head, b);
    LengthsBack(c.lengths, b);
    WordsBack(c.offsets, b, OFFSETS);
    WordsBack(c.blockCrc, b, CrcsAt(c.head));
  }

  // A container of 2^32 - 1 empty rows, up to the end of its row offsets.
  function EndlessHeader(): Header {
    Header(U32 - 1, 0, U32 - 1, 1, 0)
  }

  function EndlessBlob(): (b: seq<byte>)
    ensures |b| == CrcsAt(EndlessHeader()) && b[..HEADER] == HeaderBytes(EndlessHeader())
    ensures forall i :: HEADER <= i < |b| ==> b[i] == 0
  {
    HeaderBytes(EndlessHeader()) + seq(CrcsAt(EndlessHeader()) - HEADER, _ => 0)
  }

  // It passes every check before the row loop, whatever the caller expects and caps that allows it.
  lemma BlobIsEndless(rows: int, cols: int, caps: Caps)
    requires (rows < 0 || rows == U32 - 1) && cols <= 0
    requires (caps.rows == 0 || caps.rows >= U32 - 1) && !Over(caps.blocks, 1)
    ensures Fault(EndlessBlob(), rows, cols, caps) == Endless
  {
    hide HeaderOf, HeaderBytes, EndlessBlob;
    var b, h := EndlessBlob(), EndlessHeader();
    HeaderBack(h, b);
    forall i | 0 <= i < NSYM
      ensures LengthsOf(b)[i] == 0
    {
      assert b[HEADER..OFFSETS][i / 2] == 0;
    }
    EmptyTable(LengthsOf(b));
  }

  lemma EmptyTable(len: Lengths)
    requires |len| == NSYM && forall i :: 0 <= i < NSYM ==> len[i] == 0
    ensures ValidTable(len) && PresentCount(len, NSYM) == 0
  {
    NonePresent(len, NSYM);
  }

  lemma {:induction false} NonePresent(len: Lengths, k: nat)
    requires k <= |len| && forall i :: 0 <= i < k ==> len[i] == 0
    ensures PresentCount(len, k) == 0
  {
    if k > 0 {
      NonePresent(len, k - 1);
    }
  }

  // A blob without fault is the serialization of the container it parses to.
  lemma OpenedIsSerialized(b: seq<byte>, rows: int, cols: int, caps: Caps)
    requires Fault(b, rows, cols, caps) == Good
    ensures |b| >= PayloadAt(HeaderOf(b)) && Serialize(Parsed(b)) == b
    ensures WellFormed(Parsed(b)) && Expected(Parsed(b), rows, cols, caps)
  {
    hide WordBytes, Packed, Words, HeaderBytes, LengthsOf, GoodTable, Field, HeaderOf, Serialize, Parsed;
    HeaderForth(b);
    Reserialized(b);
    ParsedFits(b, rows, cols, caps);
  }

  lemma Reserialized(b: seq<byte>)
    requires |b| >= HEADER && |b| >= PayloadAt(HeaderOf(b)) && HeaderBytes(HeaderOf(b)) == b[..HEADER]
    ensures Serialize(Parsed(b)) == b
  {
    hide WordBytes, Packed, Words, HeaderBytes, LengthsOf, Field, HeaderOf;
    var h := HeaderOf(b);
    LengthsForth(b);
    WordsForth(b, OFFSETS, h.rows + 1);
    WordsForth(b, CrcsAt(h), h.blocks);
    SplitBlob(b, h);
  }

  lemma ParsedFits(b: seq<byte>, rows: int, cols: int, caps: Caps)
    requires Fault(b, rows, cols, caps) == Good && AllU32(HeaderWords(HeaderOf(b)))
    ensures WellFormed(Parsed(b)) && Expected(Parsed(b), rows, cols, caps)
  {
    hide WordBytes, Packed, LengthsOf, Field, HeaderOf, HeaderBytes, Serialize, ValidTable, Monotone, BlockCount;
    var h := HeaderOf(b);
    WordsForth(b, OFFSETS, h.rows + 1);
    WordsForth(b, CrcsAt(h), h.blocks);
    assert h.rows == HeaderWords(h)[0] && h.cols == HeaderWords(h)[1] && h.rowsPerBlock == HeaderWords(h)[2];
    assert h.blocks == HeaderWords(h)[3] && h.crc == HeaderWords(h)[4];
  }

  lemma SplitBlob(b: seq<byte>, h: Header)
    requires |b| >= PayloadAt(h)
    ensures b == b[..HEADER] + (b[HEADER..OFFSETS] + b[OFFSETS..CrcsAt(h)] + b[CrcsAt(h)..PayloadAt(h)] + b[PayloadAt(h)..])
  {
  }
}
