/** Row-addressable payloads: the RowOffsets index of c/codec_row.h and the encode-all, decode-any
    loops of c/codec_race.c, over all four row codecs. */
module RowIndex {
  import opened Arith
  import opened Bits
  import opened Canonical
  import Huffman
  import Rans
  import Tans
  import Bitplane

  // The codec entry of the race: a codec with its codebook.
  datatype Codec =
    | Huff(huff: Huffman.HuffCodebook)
    | RansCodec(rans: Rans.Codebook, lanes: nat)
    | Fse(tables: Tans.Tables, w: nat)
    | Planes(planes: Bitplane.Codebook)

  ghost function Objects(c: Codec): set<object>
    reads if c.Huff? then {c.huff} else {}
  {
    if c.Huff? then {c.huff, c.huff.lut} else {}
  }

  // The codec's codebook is a real one.
  ghost predicate Ready(c: Codec) {
    match c
    case Huff(h) => Huffman.CompleteTable(h.len)
    case RansCodec(cb, n) => Rans.ValidBook(cb) && n > 0
    case Fse(t, w) => Tans.Coder(t, w) && w <= 16
    case Planes(cb) => Bitplane.ValidBook(cb)
  }

  // Its tables are in place.
  ghost predicate Live(c: Codec)
    reads if c.Huff? then {c.huff} else {}, Objects(c)
  {
    c.Huff? ==> c.huff.Valid()
  }

  // The row uses only symbols the codebook covers.
  ghost predicate Codable(c: Codec, row: seq<nat>)
    requires Ready(c)
  {
    match c
    case Huff(h) => Huffman.Encodable(h.len, row)
    case RansCodec(cb, n) => Rans.Codable(cb, row)
    case Fse(t, w) => Tans.Codable(t, row)
    case Planes(cb) => Bitplane.IsRow(row)
  }

  ghost function Coded(c: Codec, row: seq<nat>): seq<byte>
    requires Ready(c) && Codable(c, row)
  {
    match c
    case Huff(h) => Huffman.CodedRow(h.len, row)
    case RansCodec(cb, n) => Rans.CodedRow(cb, row, n)
    case Fse(t, w) => Tans.CodedRow(t, w, row)
    case Planes(cb) => Bitplane.CodedRow(cb, row)
  }

  // What a decoder demands of the bytes it is given.
  ghost predicate Decodable(c: Codec, p: seq<byte>, n: nat)
    requires Ready(c)
  {
    match c
    case Huff(h) => true
    case RansCodec(cb, lanes) => n > 0 ==> Rans.WellFormed(p, lanes)
    case Fse(t, w) => n > 0 ==> |p| >= 2 && LeValue(p[..2]) < Pow2(w)
    case Planes(cb) => (cb.k == 4 ==> (n + 1) / 2 <= |p|) && (cb.k != 4 && n > 0 ==> Bitplane.ExcOffset(cb, n) <= |p|)
  }

  ghost function Decoded(c: Codec, p: seq<byte>, n: nat): seq<nat>
    requires Ready(c) && Decodable(c, p, n)
  {
    match c
    case Huff(h) => Huffman.DecodedRow(h.len, BytesBits(p), n)
    case RansCodec(cb, lanes) =>
      if n == 0 then []
      else Rans.DecodeLanes(cb, Rans.ParsedLanes(p, lanes), 0, n).0
    case Fse(t, w) =>
      if n == 0 then [] else Tans.DecodeFrom(t, w, LeValue(p[..2]), BytesBits(p[2..]), n).0
    case Planes(cb) => Bitplane.DecodedRow(cb, p, n)
  }

  // The row format can hold what the codec makes of the row.
  ghost predicate Fits(c: Codec, row: seq<nat>)
    requires Ready(c) && Codable(c, row)
  {
    c.RansCodec? ==> Rans.LengthsFit(Rans.LanesAt(c.rans, row, c.lanes, 0))
  }

  // Every coded row can be decoded, and is restored when the format can hold it.
  lemma CodecRoundTrip(c: Codec, row: seq<nat>)
    requires Ready(c) && Codable(c, row)
    ensures Decodable(c, Coded(c, row), |row|)
    ensures Fits(c, row) ==> Decoded(c, Coded(c, row), |row|) == row
  {
    match c
    case Huff(h) => Huffman.RowRoundTrip(h.len, row);
    case RansCodec(cb, n) => RansRow(c, row);
    case Fse(t, w) => if row != [] { Tans.RowRoundTrip(t, w, row); }
    case Planes(cb) => Bitplane.RowRoundTrip(cb, row);
  }

  lemma RansRow(c: Codec, row: seq<nat>)
    requires c.RansCodec? && Ready(c) && Codable(c, row)
    ensures Decodable(c, Coded(c, row), |row|)
    ensures Fits(c, row) ==> Decoded(c, Coded(c, row), |row|) == row
  {
    hide Rans.DecodeLanes, Rans.WellFormed, Rans.CodedRow, Rans.LanesAt, Rans.ParsedLane;
    if row != [] {
      Rans.RoundTripExactly(c.rans, row, c.lanes);
    }
  }

  // rANS rows fit when they have at most 43439 symbols a lane; the other codecs' rows always do.
  lemma ShortRowsFit(c: Codec, row: seq<nat>)
    requires Ready(c) && Codable(c, row) && (c.RansCodec? ==> |row| <= 43439 * c.lanes)
    ensures Fits(c, row)
  {
    if c.RansCodec? {
      Rans.LengthsFitShort(c.rans, row, c.lanes);
    }
  }

  method EncodeRow(c: Codec, sym: seq<nat>, out: array<byte>, off: nat, cap: nat) returns (used: int)
    requires Ready(c) && Live(c) && Codable(c, sym) && off + cap <= out.Length
    modifies out
    ensures Live(c)
    ensures var p := Coded(c, sym);
            used == (if |p| <= cap then |p| else -1) && (|p| <= cap ==> out[off..off + |p|] == p)
    ensures forall i :: 0 <= i < out.Length && !(off <= i < off + cap) ==> out[i] == old(out[i])
  {
    match c
    case Huff(h) => used := h.EncodeRow(sym, out, off, cap);
    case RansCodec(cb, n) => used := Rans.EncodeRow(cb, sym, n, out, off, cap);
    case Fse(t, w) => used := Tans.EncodeRow(t, w, sym, out, off, cap);
    case Planes(cb) => used := Bitplane.EncodeRow(cb, sym, out, off, cap);
  }

  method DecodeRow(c: Codec, p: seq<byte>, n: nat, symOut: array<nat>)
    requires Ready(c) && Live(c) && Decodable(c, p, n) && n <= symOut.Length
    modifies symOut
    ensures Live(c) && symOut[..n] == Decoded(c, p, n)
  {
    match c {
      case Huff(h) => h.DecodeRow(p, n, symOut);
      case RansCodec(cb, lanes) => ghost var last := Rans.DecodeRow(cb, p, lanes, n, symOut);
      case Fse(t, w) => ghost var last := Tans.DecodeRow(t, w, p, n, symOut);
      case Planes(cb) => Bitplane.DecodeRow(cb, p, n, symOut);
    }
  }

  // ---- the offset index ----

  class RowOffsets {
    var offsets: array<nat>  // uint32 values
    var nRows: nat
    var capRows: nat

    ghost predicate Valid()
      reads this, offsets
    {
      offsets.Length == capRows + 1 && nRows <= capRows
    }

    // The offsets recorded so far: where each row starts, and where the last one ends.
    ghost function Contents(): seq<nat>
      requires Valid()
      reads this, offsets
    {
      offsets[..nRows + 1]
    }

    constructor (expectRows: nat)
      ensures Valid() && Contents() == [0] && fresh(offsets)
    {
      var c := if expectRows > 0 then expectRows else 1;
      capRows := c;
      nRows := 0;
      var a := new nat[c + 1];
      a[0] := 0;
      offsets := a;
    }

    // Appends the end of a row of rowBytes bytes, growing the array when it is full.
    method Push(rowBytes: nat)
      requires Valid()
      modifies this, offsets
      ensures Valid() && (fresh(offsets) || offsets == old(offsets))
      ensures Contents() == old(Contents()) + [(old(offsets[nRows]) + rowBytes) % 0x1_0000_0000]
    {
      ghost var was := Contents();
      if nRows + 1 >= capRows {
        capRows := capRows * 2 + 1;
        var a := new nat[capRows + 1];
        for i := 0 to nRows + 1
          invariant a.Length == capRows + 1 && capRows == 2 * old(capRows) + 1
          invariant offsets == old(offsets) && nRows == old(nRows) && offsets[..nRows + 1] == was
          invariant forall j :: 0 <= j < i ==> a[j] == offsets[j]
        {
          a[i] := offsets[i];
        }
        offsets := a;
      }
      assert offsets[..nRows + 1] == was;
      offsets[nRows + 1] := (offsets[nRows] + rowBytes) % 0x1_0000_0000;
      nRows := nRows + 1;
    }
  }

  // ---- all rows of a projection ----

  ghost predicate AllCodable(c: Codec, rows: seq<seq<nat>>)
    requires Ready(c)
  {
    forall i :: 0 <= i < |rows| ==> Codable(c, rows[i])
  }

  // The coded rows, one after another.
  ghost function Payload(c: Codec, rows: seq<seq<nat>>, k: nat): seq<byte>
    requires Ready(c) && AllCodable(c, rows) && k <= |rows|
  {
    if k == 0 then [] else Payload(c, rows, k - 1) + Coded(c, rows[k - 1])
  }

  lemma {:induction false} PayloadSlice(c: Codec, rows: seq<seq<nat>>, i: nat, k: nat)
    requires Ready(c) && AllCodable(c, rows) && i < k <= |rows|
    ensures var s, e := |Payload(c, rows, i)|, |Payload(c, rows, i + 1)|;
            s <= e <= |Payload(c, rows, k)| && Payload(c, rows, k)[s..e] == Coded(c, rows[i])
  {
    hide Coded, Codable, Ready;
    if i < k - 1 {
      PayloadSlice(c, rows, i, k - 1);
      SliceOfPrefix(Payload(c, rows, k), Payload(c, rows, k - 1), |Payload(c, rows, i)|, |Payload(c, rows, i + 1)|);
    }
  }

  const U32 := 0x1_0000_0000

  // The uint32 offsets of the first k rows.
  ghost predicate Indexes(c: Codec, rows: seq<seq<nat>>, index: seq<nat>, k: nat)
    requires Ready(c) && AllCodable(c, rows) && k <= |rows|
  {
    |index| == k + 1 && forall i :: 0 <= i <= k ==> index[i] == |Payload(c, rows, i)| % U32
  }

  lemma IndexesStart(c: Codec, rows: seq<seq<nat>>)
    requires Ready(c) && AllCodable(c, rows)
    ensures Indexes(c, rows, [0], 0) && Payload(c, rows, 0) == []
  {
  }

  lemma IndexesStep(c: Codec, rows: seq<seq<nat>>, index: seq<nat>, k: nat)
    requires Ready(c) && AllCodable(c, rows) && k < |rows| && Indexes(c, rows, index, k)
    ensures |index| == k + 1 && Codable(c, rows[k])
    ensures Payload(c, rows, k + 1) == Payload(c, rows, k) + Coded(c, rows[k])
    ensures Indexes(c, rows, index + [(index[k] + |Coded(c, rows[k])|) % U32], k + 1)
  {
    hide Coded, Codable, Ready;
    Wraps(|Payload(c, rows, k)|, |Coded(c, rows[k])|);
  }

  lemma Wraps(a: nat, b: nat)
    ensures (a % U32 + b) % U32 == (a + b) % U32
  {
  }

  // The index holds where every row starts if and only if the payload is smaller than 4 GB.
  lemma IndexExactly(c: Codec, rows: seq<seq<nat>>, index: seq<nat>, k: nat)
    requires Ready(c) && AllCodable(c, rows) && k <= |rows| && Indexes(c, rows, index, k)
    ensures (forall i :: 0 <= i <= k ==> index[i] == |Payload(c, rows, i)|) <==> |Payload(c, rows, k)| < U32
  {
    hide Coded, Codable, Ready, Payload;
    forall i | 0 <= i <= k
      ensures |Payload(c, rows, i)| <= |Payload(c, rows, k)|
    {
      PayloadGrows(c, rows, i, k);
    }
    assert index[k] == |Payload(c, rows, k)| % U32;
  }

  lemma {:induction false} PayloadGrows(c: Codec, rows: seq<seq<nat>>, i: nat, k: nat)
    requires Ready(c) && AllCodable(c, rows) && i <= k <= |rows|
    ensures |Payload(c, rows, i)| <= |Payload(c, rows, k)|
    decreases k
  {
    hide Coded, Codable, Ready;
    if i < k {
      PayloadGrows(c, rows, i, k - 1);
    }
  }

  // The index gives a row's own slice of the payload if and only if the row ends before 4 GB, and
  // the row is decoded from there.
  lemma RandomAccess(c: Codec, rows: seq<seq<nat>>, index: seq<nat>, i: nat)
    requires Ready(c) && AllCodable(c, rows) && Indexes(c, rows, index, |rows|) && i < |rows|
    ensures index[i] == |Payload(c, rows, i)| && index[i + 1] == |Payload(c, rows, i + 1)|
            <==> |Payload(c, rows, i + 1)| < U32
    ensures |Payload(c, rows, i + 1)| < U32 ==>
              var p := Payload(c, rows, |rows|);
              && index[i] <= index[i + 1] <= |p|
              && p[index[i]..index[i + 1]] == Coded(c, rows[i])
              && Decodable(c, p[index[i]..index[i + 1]], |rows[i]|)
              && (Fits(c, rows[i]) ==> Decoded(c, p[index[i]..index[i + 1]], |rows[i]|) == rows[i])
  {
    hide Coded, Codable, Ready, Payload, Fits, Decodable, Decoded;
    PayloadGrows(c, rows, i, i + 1);
    assert index[i + 1] == |Payload(c, rows, i + 1)| % U32 && index[i] == |Payload(c, rows, i)| % U32;
    if |Payload(c, rows, i + 1)| < U32 {
      PayloadSlice(c, rows, i, |rows|);
      CodecRoundTrip(c, rows[i]);
    }
  }

  // 65536 rows of 131072 raw nibbles.
  function LongRows(): (rows: seq<seq<nat>>)
    ensures |rows| == 65536 && forall i :: 0 <= i < |rows| ==> rows[i] == seq(131072, _ => 0)
  {
    seq(65536, _ => seq(131072, _ => 0))
  }

  lemma {:induction false} LongPayload(c: Codec, k: nat)
    requires c == Planes(Bitplane.Codebook(4, 0)) && Ready(c) && AllCodable(c, LongRows()) && k <= |LongRows()|
    ensures |Payload(c, LongRows(), k)| == 65536 * k
  {
    hide LongRows;
    if k > 0 {
      LongPayload(c, k - 1);
      assert |Coded(c, LongRows()[k - 1])| == 65536;
    }
  }

  // An input of 4 GB: the index ends with 0, in front of where its last row begins.
  lemma LongIndexWraps(index: seq<nat>)
    ensures var c, rows := Planes(Bitplane.Codebook(4, 0)), LongRows();
            && Ready(c) && AllCodable(c, rows)
            && (Indexes(c, rows, index, |rows|) ==>
                  index[|rows|] == 0 < index[|rows| - 1] && |Payload(c, rows, |rows|)| == U32)
  {
    hide LongRows, Payload;
    var c, rows := Planes(Bitplane.Codebook(4, 0)), LongRows();
    assert AllCodable(c, rows);
    LongPayload(c, |rows|);
    LongPayload(c, |rows| - 1);
    if Indexes(c, rows, index, |rows|) {
      assert index[|rows|] == |Payload(c, rows, |rows|)| % U32;
      assert index[|rows| - 1] == |Payload(c, rows, |rows| - 1)| % U32;
    }
  }

  // Encodes every row into payload and pushes its offset; stops where the source exits, when
  // the payload buffer is too small.
  method EncodeAll(c: Codec, rows: seq<seq<nat>>, payload: array<byte>) returns (ok: bool, ro: RowOffsets)
    requires Ready(c) && Live(c) && AllCodable(c, rows)
    modifies payload
    ensures Live(c)
    ensures fresh(ro) && fresh(ro.offsets) && ro.Valid()
    ensures ok == (|Payload(c, rows, |rows|)| <= payload.Length)
    ensures ok ==> Indexes(c, rows, ro.Contents(), |rows|)
    ensures ok ==> payload[..|Payload(c, rows, |rows|)|] == Payload(c, rows, |rows|)
  {
    hide Ready, Indexes, Payload, AllCodable, Stored;
    ro := new RowOffsets(|rows|);
    var pos := 0;
    NothingStored(c, rows, payload[..], ro.Contents());
    for i := 0 to |rows|
      invariant Live(c) && fresh(ro) && fresh(ro.offsets) && ro.Valid()
      invariant Stored(c, rows, payload[..], ro.Contents(), i, pos)
    {
      PayloadGrows(c, rows, i + 1, |rows|);
      ok, pos := EncodeNext(c, rows, i, payload, pos, ro);
      if !ok {
        return;
      }
    }
    StoredAll(c, rows, payload[..], ro.Contents(), pos);
    ok := true;
  }

  // The first i rows have been written and indexed.
  ghost predicate Stored(c: Codec, rows: seq<seq<nat>>, payload: seq<byte>, index: seq<nat>, i: nat, pos: nat)
    requires Ready(c) && AllCodable(c, rows) && i <= |rows|
  {
    && pos == |Payload(c, rows, i)| <= |payload| && payload[..pos] == Payload(c, rows, i)
    && Indexes(c, rows, index, i)
  }

  lemma NothingStored(c: Codec, rows: seq<seq<nat>>, payload: seq<byte>, index: seq<nat>)
    requires Ready(c) && AllCodable(c, rows) && index == [0]
    ensures Stored(c, rows, payload, index, 0, 0)
  {
    IndexesStart(c, rows);
  }

  lemma StoredAll(c: Codec, rows: seq<seq<nat>>, payload: seq<byte>, index: seq<nat>, pos: nat)
    requires Ready(c) && AllCodable(c, rows) && Stored(c, rows, payload, index, |rows|, pos)
    ensures |Payload(c, rows, |rows|)| <= |payload| && Indexes(c, rows, index, |rows|)
    ensures payload[..|Payload(c, rows, |rows|)|] == Payload(c, rows, |rows|)
  {
  }

  // Writes row i behind the others and pushes its offset, unless the buffer is too small for it.
  method EncodeNext(c: Codec, rows: seq<seq<nat>>, i: nat, payload: array<byte>, pos: nat, ro: RowOffsets)
      returns (ok: bool, next: nat)
    requires Ready(c) && Live(c) && AllCodable(c, rows) && i < |rows| && ro.Valid()
    requires Stored(c, rows, payload[..], ro.Contents(), i, pos)
    modifies payload, ro, ro.offsets
    ensures Live(c) && ro.Valid() && (fresh(ro.offsets) || ro.offsets == old(ro.offsets))
    ensures ok ==> Stored(c, rows, payload[..], ro.Contents(), i + 1, next)
    ensures !ok <==> |Payload(c, rows, i + 1)| > payload.Length
  {
    hide Coded, Codable, Ready, Indexes, Payload;
    ghost var index := ro.Contents();
    IndexesStep(c, rows, index, i);
    var used := EncodeRow(c, rows[i], payload, pos, payload.Length - pos);
    if used == -1 {
      return false, pos;
    }
    Appended(payload[..], Payload(c, rows, i), Coded(c, rows[i]));
    ghost var p := payload[..];
    ro.Push(used);
    assert payload[..] == p;
    ok, next := true, pos + used;
  }

  // Decodes row i alone.
  method DecodeAny(c: Codec, payload: array<byte>, ro: RowOffsets, i: nat, n: nat, symOut: array<nat>, ghost rows: seq<seq<nat>>)
    requires Ready(c) && Live(c) && AllCodable(c, rows) && i < |rows| && |rows[i]| == n <= symOut.Length && ro.Valid()
    requires symOut != ro.offsets
    requires |Payload(c, rows, |rows|)| <= payload.Length && |Payload(c, rows, i + 1)| < U32
    requires payload[..|Payload(c, rows, |rows|)|] == Payload(c, rows, |rows|)
    requires Indexes(c, rows, ro.Contents(), |rows|)
    modifies symOut
    ensures Live(c) && (Fits(c, rows[i]) ==> symOut[..n] == rows[i])
  {
    hide Ready, Codable, Decodable, Coded, Decoded, Payload, Fits;
    RandomAccess(c, rows, ro.Contents(), i);
    assert ro.Contents()[i] == ro.offsets[i] && ro.Contents()[i + 1] == ro.offsets[i + 1];
    var off := ro.offsets[i];
    var len := ro.offsets[i + 1] - off;
    ghost var whole := Payload(c, rows, |rows|);
    SliceOfPrefix(payload[..], whole, off, off + len);
    DecodeRow(c, payload[off..off + len], n, symOut);
  }

  lemma Appended(all: seq<byte>, was: seq<byte>, next: seq<byte>)
    requires |was| + |next| <= |all| && all[..|was|] == was && all[|was|..|was| + |next|] == next
    ensures all[..|was| + |next|] == was + next
  {
    assert all[..|was| + |next|] == all[..|was|] + all[|was|..|was| + |next|];
  }

  lemma SliceOfPrefix(all: seq<byte>, whole: seq<byte>, s: nat, e: nat)
    requires s <= e <= |whole| <= |all| && all[..|whole|] == whole
    ensures all[s..e] == whole[s..e]
  {
    assert all[..|whole|][s..e] == all[s..e];
  }
}
