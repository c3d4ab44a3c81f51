/** The bitplane-and-exceptions row codec of c/codec_row_bitplane.h. */
module Bitplane {
  import opened Arith
  import opened Bits
  import opened BitIO
  import opened Nibbles

  const NSYM: nat := 16

  // A window [bias, bias + 2^k) with k in {1, 2, 3}, or k == 4 for raw nibbles.
  datatype Codebook = Codebook(k: nat, bias: nat)

  predicate ValidBook(cb: Codebook) {
    cb.k == 4 || (1 <= cb.k <= 3 && cb.bias + Pow2(cb.k) <= NSYM)
  }

  // ---- choosing the window ----

  function CountIn(counts: seq<nat>, lo: nat, hi: nat): (c: nat)
    requires lo <= hi <= |counts|
  {
    if lo == hi then 0 else CountIn(counts, lo, hi - 1) + counts[hi - 1]
  }

  lemma {:induction false} CountInMono(counts: seq<nat>, lo: nat, hi: nat, top: nat)
    requires lo <= hi <= top <= |counts|
    ensures CountIn(counts, lo, hi) <= CountIn(counts, 0, top)
    decreases top
  {
    if hi < top {
      CountInMono(counts, lo, hi, top - 1);
    } else if lo < hi {
      CountInMono(counts, lo, hi - 1, top - 1);
    }
  }

  // The modelled size of all rows in eighths of a byte: window and mask bits, and four bits
  // for every symbol outside the window.
  function ModelCost(counts: seq<nat>, cb: Codebook): int
    requires |counts| == NSYM && ValidBook(cb)
  {
    var total := CountIn(counts, 0, NSYM);
    if cb.k == 4 then 4 * total
    else total * (cb.k + 1) + 4 * (total - CountIn(counts, cb.bias, cb.bias + Pow2(cb.k)))
  }

  method CountWindow(counts: seq<nat>, lo: nat, width: nat) returns (c: nat)
    requires lo + width <= |counts|
    ensures c == CountIn(counts, lo, lo + width)
  {
    c := 0;
    for v := lo to lo + width
      invariant c == CountIn(counts, lo, v)
    {
      c := c + counts[v];
    }
  }

  // bitplane_build: the cheapest window, or raw nibbles when no window beats them.
  method BitplaneBuild(counts: seq<nat>) returns (cb: Codebook)
    requires |counts| == NSYM
    ensures ValidBook(cb)
    ensures forall other: Codebook :: ValidBook(other) ==> ModelCost(counts, cb) <= ModelCost(counts, other)
  {
    var total := CountWindow(counts, 0, NSYM);
    cb := Codebook(4, 0);
    if total == 0 {
      forall other: Codebook | ValidBook(other)
        ensures ModelCost(counts, cb) <= ModelCost(counts, other)
      {
        if other.k != 4 {
          CountInMono(counts, other.bias, other.bias + Pow2(other.k), NSYM);
        }
      }
      return;
    }
    var best := 4 * total;
    for k := 1 to 4
      invariant ValidBook(cb) && best == ModelCost(counts, cb) <= 4 * total
      invariant forall other: Codebook :: ValidBook(other) && other.k < k ==> best <= ModelCost(counts, other)
    {
      var width := Pow2(k);
      Pow2Mono(k, 3);
      assert Pow2(3) == 8;
      for lo := 0 to NSYM - width + 1
        invariant ValidBook(cb) && best == ModelCost(counts, cb) <= 4 * total
        invariant forall other: Codebook :: ValidBook(other) && (other.k < k || (other.k == k && other.bias < lo)) ==>
                    best <= ModelCost(counts, other)
      {
        var inWindow := CountWindow(counts, lo, width);
        CountInMono(counts, lo, lo + width, NSYM);
        var nExc := if total > inWindow then total - inWindow else 0;
        var cost := total * (k + 1) + 4 * nExc;
        assert cost == ModelCost(counts, Codebook(k, lo));
        if cost < best {
          best := cost;
          cb := Codebook(k, lo);
        }
      }
    }
  }

  // ---- coded rows ----

  ghost predicate IsRow(row: seq<nat>) {
    forall i :: 0 <= i < |row| ==> row[i] < NSYM
  }

  predicate InWindow(cb: Codebook, s: nat) {
    cb.bias <= s < cb.bias + Pow2(cb.k)
  }

  function BaseCode(cb: Codebook, s: nat): nat {
    if InWindow(cb, s) then s - cb.bias else 0
  }

  function BaseBits(cb: Codebook, row: seq<nat>): (b: BitString)
    ensures |b| == |row| * cb.k
  {
    if row == [] then [] else ToBits(BaseCode(cb, row[0]), cb.k) + BaseBits(cb, row[1..])
  }

  function MaskBits(cb: Codebook, row: seq<nat>): (b: BitString)
    ensures |b| == |row|
  {
    if row == [] then [] else [!InWindow(cb, row[0])] + MaskBits(cb, row[1..])
  }

  function Exceptions(cb: Codebook, row: seq<nat>): (e: seq<nat>)
    ensures |e| <= |row|
  {
    if row == [] then [] else (if InWindow(cb, row[0]) then [] else [row[0]]) + Exceptions(cb, row[1..])
  }

  // Row layout: exception count, base plane, mask, packed exceptions; or raw nibbles.
  function CodedRow(cb: Codebook, row: seq<nat>): seq<byte> {
    if row == [] then []
    else if cb.k == 4 then Packed(row)
    else LeBytes(|Exceptions(cb, row)| % 65536, 2) + PackBits(BaseBits(cb, row)) + PackBits(MaskBits(cb, row))
         + Packed(Exceptions(cb, row))
  }

  // ---- what the model cost counts ----

  function Occurs(row: seq<nat>, v: nat): nat {
    if row == [] then 0 else (if row[0] == v then 1 else 0) + Occurs(row[1..], v)
  }

  function Histogram(row: seq<nat>): (counts: seq<nat>)
    ensures |counts| == NSYM && forall v :: 0 <= v < NSYM ==> counts[v] == Occurs(row, v)
  {
    seq(NSYM, v requires 0 <= v < NSYM => Occurs(row, v))
  }

  // How many symbols of the row lie in lo..hi-1.
  function InRange(row: seq<nat>, lo: nat, hi: nat): nat {
    if row == [] then 0 else (if lo <= row[0] < hi then 1 else 0) + InRange(row[1..], lo, hi)
  }

  lemma {:induction false} InRangeNext(row: seq<nat>, lo: nat, hi: nat)
    requires lo < hi
    ensures InRange(row, lo, hi) == InRange(row, lo, hi - 1) + Occurs(row, hi - 1)
  {
    if row != [] {
      InRangeNext(row[1..], lo, hi);
    }
  }

  lemma {:induction false} InRangeNone(row: seq<nat>, lo: nat)
    ensures InRange(row, lo, lo) == 0
  {
    if row != [] {
      InRangeNone(row[1..], lo);
    }
  }

  lemma {:induction false} CountInRange(row: seq<nat>, lo: nat, hi: nat)
    requires lo <= hi <= NSYM
    ensures CountIn(Histogram(row), lo, hi) == InRange(row, lo, hi)
    decreases hi - lo
  {
    hide Histogram;
    if lo == hi {
      InRangeNone(row, lo);
    } else {
      CountInRange(row, lo, hi - 1);
      InRangeNext(row, lo, hi);
    }
  }

  lemma {:induction false} RangeCounts(cb: Codebook, row: seq<nat>)
    requires IsRow(row)
    ensures InRange(row, 0, NSYM) == |row|
    ensures InRange(row, cb.bias, cb.bias + Pow2(cb.k)) + |Exceptions(cb, row)| == |row|
  {
    if row != [] {
      RangeCounts(cb, row[1..]);
    }
  }

  // The model cost of a row's histogram is the number of bits the row is coded in: its base and mask
  // planes and four bits an exception, or four bits a symbol.
  lemma CostIsBits(cb: Codebook, row: seq<nat>)
    requires ValidBook(cb) && IsRow(row)
    ensures ModelCost(Histogram(row), cb)
         == if cb.k == 4 then 4 * |row| else |BaseBits(cb, row)| + |MaskBits(cb, row)| + 4 * |Exceptions(cb, row)|
  {
    hide Histogram, InRange, Exceptions, BaseBits, MaskBits, IsRow;
    RangeCounts(cb, row);
    CountInRange(row, 0, NSYM);
    if cb.k != 4 {
      CountInRange(row, cb.bias, cb.bias + Pow2(cb.k));
      assert |row| * (cb.k + 1) == |row| * cb.k + |row|;
    }
  }

  // ---- decoding ----

  // The value gathered at rank, 0 past the end of the exception area.
  function Gather(exc: seq<byte>, rank: nat): nat {
    if rank / 2 < |exc| then NibbleAt(exc, rank) else 0
  }

  function BitValue(b: bool): nat {
    if b then 1 else 0
  }

  // Symbols decoded from the two planes, with rank exceptions already seen.
  function DecodeFrom(cb: Codebook, base: BitString, mask: BitString, exc: seq<byte>, rank: nat, n: nat): (r: seq<nat>)
    ensures |r| == n
    decreases n
  {
    if n == 0 then [] else
      var isExc := FromBits(Window(mask, 1));
      var s := if isExc == 1 then Gather(exc, rank) else (FromBits(Window(base, cb.k)) + cb.bias) % 256;
      [s] + DecodeFrom(cb, DropBits(base, cb.k), DropBits(mask, 1), exc, rank + isExc, n - 1)
  }

  function BaseBytes(cb: Codebook, n: nat): nat {
    (n * cb.k + 7) / 8
  }

  function MaskOffset(cb: Codebook, n: nat): nat {
    2 + BaseBytes(cb, n)
  }

  function ExcOffset(cb: Codebook, n: nat): nat {
    MaskOffset(cb, n) + (n + 7) / 8
  }

  function DecodedRow(cb: Codebook, p: seq<byte>, n: nat): seq<nat>
    requires cb.k == 4 ==> (n + 1) / 2 <= |p|
    requires cb.k != 4 && n > 0 ==> ExcOffset(cb, n) <= |p|
  {
    if n == 0 then []
    else if cb.k == 4 then seq(n, i requires 0 <= i < n => NibbleAt(p, i))
    else DecodeFrom(cb, BytesBits(p[2..MaskOffset(cb, n)]), BytesBits(p[MaskOffset(cb, n)..ExcOffset(cb, n)]),
                    p[ExcOffset(cb, n)..], 0, n)
  }

  // The first symbol's bits head both planes.
  lemma PlaneHeads(cb: Codebook, row: seq<nat>, t: BitString, u: BitString)
    requires row != []
    ensures var base, mask := BaseBits(cb, row) + t, MaskBits(cb, row) + u;
            && Window(base, cb.k) == ToBits(BaseCode(cb, row[0]), cb.k)
            && DropBits(base, cb.k) == BaseBits(cb, row[1..]) + t
            && FromBits(Window(mask, 1)) == BitValue(!InWindow(cb, row[0]))
            && DropBits(mask, 1) == MaskBits(cb, row[1..]) + u
  {
    var code, outside := ToBits(BaseCode(cb, row[0]), cb.k), [!InWindow(cb, row[0])];
    PrefixOf(code, BaseBits(cb, row[1..]), t);
    PrefixOf(outside, MaskBits(cb, row[1..]), u);
    assert FromBits(outside) == BitValue(outside[0]) + 2 * FromBits(outside[1..]);
  }

  lemma PrefixOf(a: BitString, b: BitString, c: BitString)
    ensures Window(a + b + c, |a|) == a && DropBits(a + b + c, |a|) == b + c
  {
  }

  // The symbol rebuilt from the planes is the row's first symbol.
  lemma SymbolRestored(cb: Codebook, s: nat, all: seq<nat>, rank: nat)
    requires ValidBook(cb) && cb.k != 4 && s < NSYM && IsRow(all)
    requires InWindow(cb, s) || (rank < |all| && all[rank] == s)
    ensures s == if !InWindow(cb, s) then Gather(Packed(all), rank)
                 else (FromBits(ToBits(BaseCode(cb, s), cb.k)) + cb.bias) % 256
  {
    if InWindow(cb, s) {
      FromTo(s - cb.bias, cb.k);
      LowSmall(s - cb.bias, cb.k);
    } else {
      UnpackPacked(all, rank);
    }
  }

  lemma {:induction false} DecodeInverts(cb: Codebook, row: seq<nat>, all: seq<nat>, rank: nat, t: BitString, u: BitString)
    requires ValidBook(cb) && cb.k != 4 && IsRow(row) && IsRow(all)
    requires rank <= |all| && all[rank..] == Exceptions(cb, row)
    ensures DecodeFrom(cb, BaseBits(cb, row) + t, MaskBits(cb, row) + u, Packed(all), rank, |row|) == row
  {
    hide ToBits, FromBits, BaseBits, MaskBits, Window, DropBits, Gather, Packed, BaseCode;
    if row != [] {
      var s, rest := row[0], row[1..];
      PlaneHeads(cb, row, t, u);
      var next := if InWindow(cb, s) then rank else rank + 1;
      assert !InWindow(cb, s) ==> all[rank] == all[rank..][0] == s && all[next..] == all[rank..][1..];
      SymbolRestored(cb, s, all, rank);
      DecodeInverts(cb, rest, all, next, t, u);
      assert row == [s] + rest;
    }
  }

  lemma {:induction false} ExceptionsAreSymbols(cb: Codebook, row: seq<nat>)
    requires IsRow(row)
    ensures IsRow(Exceptions(cb, row))
  {
    if row != [] {
      ExceptionsAreSymbols(cb, row[1..]);
    }
  }

  // Decoding a coded row gives it back, for every window and for raw nibbles.
  lemma RowRoundTrip(cb: Codebook, row: seq<nat>)
    requires ValidBook(cb) && IsRow(row)
    ensures var p := CodedRow(cb, row);
            && (cb.k == 4 ==> (|row| + 1) / 2 <= |p|)
            && (cb.k != 4 && row != [] ==> ExcOffset(cb, |row|) <= |p|)
            && DecodedRow(cb, p, |row|) == row
  {
    var p, n := CodedRow(cb, row), |row|;
    if n > 0 && cb.k == 4 {
      forall i | 0 <= i < n
        ensures NibbleAt(p, i) == row[i]
      {
        UnpackPacked(row, i);
      }
    } else if n > 0 {
      var exc, base, mask := Exceptions(cb, row), BaseBits(cb, row), MaskBits(cb, row);
      PackBitsBits(base);
      PackBitsBits(mask);
      SliceRow(LeBytes(|exc| % 65536, 2), PackBits(base), PackBits(mask), Packed(exc));
      ExceptionsAreSymbols(cb, row);
      DecodeInverts(cb, row, exc, 0, Zeros(8 * |PackBits(base)| - |base|), Zeros(8 * |PackBits(mask)| - |mask|));
    }
  }

  lemma SliceRow(h: seq<byte>, a: seq<byte>, b: seq<byte>, c: seq<byte>)
    ensures (h + a + b + c)[|h|..|h| + |a|] == a
    ensures (h + a + b + c)[|h| + |a|..|h| + |a| + |b|] == b
    ensures (h + a + b + c)[|h| + |a| + |b|..] == c
  {
  }

  // ---- the encoder and the decoder ----

  lemma {:induction false} BaseBitsSnoc(cb: Codebook, row: seq<nat>, s: nat)
    ensures BaseBits(cb, row + [s]) == BaseBits(cb, row) + ToBits(BaseCode(cb, s), cb.k)
  {
    if row == [] {
      assert [s][1..] == [] && [] + [s] == [s];
    } else {
      BaseBitsSnoc(cb, row[1..], s);
      assert (row + [s])[1..] == row[1..] + [s];
      var x, y, z := ToBits(BaseCode(cb, row[0]), cb.k), BaseBits(cb, row[1..]), ToBits(BaseCode(cb, s), cb.k);
      assert x + (y + z) == (x + y) + z;
    }
  }

  lemma {:induction false} MaskBitsSnoc(cb: Codebook, row: seq<nat>, s: nat)
    ensures MaskBits(cb, row + [s]) == MaskBits(cb, row) + [!InWindow(cb, s)]
    ensures Exceptions(cb, row + [s]) == Exceptions(cb, row) + (if InWindow(cb, s) then [] else [s])
  {
    hide InWindow;
    if row == [] {
      assert [s][1..] == [] && [] + [s] == [s];
      NothingWritten(cb);
    } else {
      MaskBitsSnoc(cb, row[1..], s);
      SnocRest(row, s);
      hide MaskBits, Exceptions;
      MaskBitsHead(cb, row);
      MaskBitsHead(cb, row + [s]);
    }
  }

  lemma SnocRest(row: seq<nat>, s: nat)
    requires row != []
    ensures (row + [s])[0] == row[0] && (row + [s])[1..] == row[1..] + [s]
  {
  }

  lemma MaskBitsHead(cb: Codebook, row: seq<nat>)
    requires row != []
    ensures MaskBits(cb, row) == [!InWindow(cb, row[0])] + MaskBits(cb, row[1..])
    ensures Exceptions(cb, row) == (if InWindow(cb, row[0]) then [] else [row[0]]) + Exceptions(cb, row[1..])
  {
  }

  lemma {:induction false} ExceptionsMono(cb: Codebook, row: seq<nat>, i: nat)
    requires i <= |row|
    ensures |Exceptions(cb, row[..i])| <= |Exceptions(cb, row)|
  {
    if i > 0 {
      ExceptionsMono(cb, row[1..], i - 1);
      assert row[..i][1..] == row[1..][..i - 1];
    }
  }

  // Appends one value to the packed exceptions at out[off..]; false when cap bytes are full.
  method PutException(out: array<byte>, off: nat, cap: nat, nExc: nat, s: nat, ghost exc: seq<nat>) returns (ok: bool)
    requires off + cap <= out.Length && s < NSYM && |exc| == nExc && (nExc + 1) / 2 <= cap
    requires forall j :: 0 <= j < (nExc + 1) / 2 ==> out[off + j] == Packed(exc)[j]
    modifies out
    ensures ok == (nExc / 2 < cap)
    ensures ok ==> forall j :: 0 <= j < (nExc + 2) / 2 ==> out[off + j] == Packed(exc + [s])[j]
    ensures forall j :: 0 <= j < out.Length && !(off <= j < off + cap) ==> out[j] == old(out[j])
  {
    var byteIdx := nExc / 2;
    if byteIdx >= cap {
      return false;
    }
    PackedSnoc(exc, s);
    if nExc % 2 == 0 {
      out[off + byteIdx] := s % 16;
    } else {
      out[off + byteIdx] := Or(out[off + byteIdx], Shl(s, 4));
    }
    ok := true;
  }

  // Both plane writers, side by side in out[off + 2..], hold the planes of the symbols done.
  ghost predicate PlanesHold(cb: Codebook, done: seq<nat>, n: nat, base: BitWriter, mask: BitWriter, out: array<byte>, off: nat)
    reads base, mask, out
  {
    && base != mask && base.buf == out && mask.buf == out && base.Valid() && mask.Valid()
    && base.off == off + 2 && base.cap == BaseBytes(cb, n)
    && mask.off == off + MaskOffset(cb, n) && mask.cap == (n + 7) / 8
    && base.written == BaseBits(cb, done) && mask.written == MaskBits(cb, done)
  }

  ghost predicate ExceptionsHold(exc: seq<nat>, out: array<byte>, at: nat)
    reads out
  {
    at + |Packed(exc)| <= out.Length && forall j :: 0 <= j < |Packed(exc)| ==> out[at + j] == Packed(exc)[j]
  }

  // Writes one symbol to both planes.
  method PutPlanes(cb: Codebook, s: nat, n: nat, base: BitWriter, mask: BitWriter, out: array<byte>, off: nat, ghost done: seq<nat>)
    requires ValidBook(cb) && cb.k != 4 && PlanesHold(cb, done, n, base, mask, out, off)
    modifies base, mask, out
    ensures PlanesHold(cb, done + [s], n, base, mask, out, off)
    ensures forall j :: 0 <= j < out.Length && !(off + 2 <= j < off + ExcOffset(cb, n)) ==> out[j] == old(out[j])
  {
    BaseBitsSnoc(cb, done, s);
    MaskBitsSnoc(cb, done, s);
    hide BaseBits, MaskBits;
    var inWindow := InWindow(cb, s);
    base.Put(if inWindow then s - cb.bias else 0, cb.k);
    mask.Put(if inWindow then 0 else 1, 1);
    assert ToBits(if inWindow then 0 else 1, 1) == [!inWindow];
  }

  // Writes one exception behind the planes, which stay as they are.
  method PutOutlier(cb: Codebook, s: nat, n: nat, base: BitWriter, mask: BitWriter, out: array<byte>, off: nat, cap: nat,
                    ghost done: seq<nat>, ghost exc: seq<nat>, nExc: nat) returns (ok: bool)
    requires PlanesHold(cb, done, n, base, mask, out, off) && s < NSYM && nExc == |exc|
    requires ExcOffset(cb, n) + (nExc + 1) / 2 <= cap && off + cap <= out.Length
    requires ExceptionsHold(exc, out, off + ExcOffset(cb, n))
    modifies out
    ensures PlanesHold(cb, done, n, base, mask, out, off)
    ensures ok == (nExc / 2 < cap - ExcOffset(cb, n))
    ensures ok ==> ExceptionsHold(exc + [s], out, off + ExcOffset(cb, n))
    ensures forall j :: 0 <= j < out.Length && !(off + 2 <= j < off + cap) ==> out[j] == old(out[j])
  {
    hide BaseBits, MaskBits;
    ok := PutException(out, off + ExcOffset(cb, n), cap - ExcOffset(cb, n), nExc, s, exc);
  }

  // Flushes both planes.
  method FinishPlanes(cb: Codebook, sym: seq<nat>, base: BitWriter, mask: BitWriter, out: array<byte>, off: nat)
    requires ValidBook(cb) && cb.k != 4 && PlanesHold(cb, sym, |sym|, base, mask, out, off)
    modifies base, mask, out
    ensures out[off + 2..off + MaskOffset(cb, |sym|)] == PackBits(BaseBits(cb, sym))
    ensures out[off + MaskOffset(cb, |sym|)..off + ExcOffset(cb, |sym|)] == PackBits(MaskBits(cb, sym))
    ensures forall j :: 0 <= j < out.Length && !(off + 2 <= j < off + ExcOffset(cb, |sym|)) ==> out[j] == old(out[j])
  {
    hide BaseBits, MaskBits, PackBits;
    var nb := base.Finish();
    assert forall j :: 0 <= j < nb ==> out[off + 2 + j] == PackBits(BaseBits(cb, sym))[j];
    var nm := mask.Finish();
  }

  // The planes and exceptions of a row; -1 when the exceptions do not fit.
  method EncodePlanes(cb: Codebook, sym: seq<nat>, out: array<byte>, off: nat, cap: nat) returns (nExc: int)
    requires ValidBook(cb) && cb.k != 4 && IsRow(sym) && off + cap <= out.Length && ExcOffset(cb, |sym|) <= cap
    modifies out
    ensures var exc := Exceptions(cb, sym); nExc == if ExcOffset(cb, |sym|) + (|exc| + 1) / 2 <= cap then |exc| else -1
    ensures nExc >= 0 ==> PlanesIn(cb, sym, out, off)
    ensures forall j :: 0 <= j < out.Length && !(off + 2 <= j < off + cap) ==> out[j] == old(out[j])
  {
    hide BaseBits, MaskBits, PackBits, Packed, Exceptions, BytesBits, ToBits;
    var n := |sym|;
    var base := new BitWriter(out, off + 2, BaseBytes(cb, n));
    var mask := new BitWriter(out, off + MaskOffset(cb, n), (n + 7) / 8);
    NothingWritten(cb);
    nExc := EncodeSymbols(cb, sym, base, mask, out, off, cap);
    if nExc < 0 {
      return;
    }
    FinishPlanes(cb, sym, base, mask, out, off);
    PlanesPlaced(cb, sym, out, off);
  }

  // Every symbol to the planes, and those outside the window to the exceptions.
  method EncodeSymbols(cb: Codebook, sym: seq<nat>, base: BitWriter, mask: BitWriter, out: array<byte>, off: nat, cap: nat)
      returns (nExc: int)
    requires ValidBook(cb) && cb.k != 4 && IsRow(sym) && off + cap <= out.Length && ExcOffset(cb, |sym|) <= cap
    requires PlanesHold(cb, [], |sym|, base, mask, out, off)
    modifies base, mask, out
    ensures var exc := Exceptions(cb, sym); nExc == if ExcOffset(cb, |sym|) + (|exc| + 1) / 2 <= cap then |exc| else -1
    ensures nExc >= 0 ==> PlanesHold(cb, sym, |sym|, base, mask, out, off)
                          && ExceptionsHold(Exceptions(cb, sym), out, off + ExcOffset(cb, |sym|))
    ensures forall j :: 0 <= j < out.Length && !(off + 2 <= j < off + cap) ==> out[j] == old(out[j])
  {
    hide PlanesHold, Packed, BaseBits, MaskBits, Exceptions, InWindow;
    var n := |sym|;
    nExc := 0;
    ghost var exc := [];
    NothingWritten(cb);
    for i := 0 to n
      invariant PlanesHold(cb, sym[..i], n, base, mask, out, off)
      invariant exc == Exceptions(cb, sym[..i]) && nExc == |exc| && ExcOffset(cb, n) + (nExc + 1) / 2 <= cap
      invariant ExceptionsHold(exc, out, off + ExcOffset(cb, n))
      invariant forall j :: 0 <= j < out.Length && !(off + 2 <= j < off + cap) ==> out[j] == old(out[j])
    {
      var s := sym[i];
      assert sym[..i + 1] == sym[..i] + [s];
      MaskBitsSnoc(cb, sym[..i], s);
      PutPlanes(cb, s, n, base, mask, out, off, sym[..i]);
      if !InWindow(cb, s) {
        var ok := PutOutlier(cb, s, n, base, mask, out, off, cap, sym[..i + 1], exc, nExc);
        exc := exc + [s];
        nExc := nExc + 1;
        if !ok {
          ExceptionsMono(cb, sym, i + 1);
          return -1;
        }
      }
    }
    assert sym[..n] == sym;
  }

  lemma NothingWritten(cb: Codebook)
    ensures BaseBits(cb, []) == [] && MaskBits(cb, []) == [] && Exceptions(cb, []) == [] && Packed([]) == []
  {
  }

  // out[off + 2..] holds the planes and the packed exceptions of sym.
  ghost predicate PlanesIn(cb: Codebook, sym: seq<nat>, out: array<byte>, off: nat)
    reads out
  {
    var end := off + ExcOffset(cb, |sym|) + |Packed(Exceptions(cb, sym))|;
    && end <= out.Length
    && out[off + 2..end] == PackBits(BaseBits(cb, sym)) + PackBits(MaskBits(cb, sym)) + Packed(Exceptions(cb, sym))
  }

  lemma PlanesPlaced(cb: Codebook, sym: seq<nat>, out: array<byte>, off: nat)
    requires off + ExcOffset(cb, |sym|) + |Packed(Exceptions(cb, sym))| <= out.Length
    requires out[off + 2..off + MaskOffset(cb, |sym|)] == PackBits(BaseBits(cb, sym))
    requires out[off + MaskOffset(cb, |sym|)..off + ExcOffset(cb, |sym|)] == PackBits(MaskBits(cb, sym))
    requires ExceptionsHold(Exceptions(cb, sym), out, off + ExcOffset(cb, |sym|))
    ensures PlanesIn(cb, sym, out, off)
  {
    hide BaseBits, MaskBits, PackBits, Packed, Exceptions;
    var e := off + ExcOffset(cb, |sym|);
    assert out[e..e + |Packed(Exceptions(cb, sym))|] == Packed(Exceptions(cb, sym));
    JoinSlices(out, off + 2, off + MaskOffset(cb, |sym|), e, e + |Packed(Exceptions(cb, sym))|);
  }

  lemma JoinSlices(out: array<byte>, i: nat, j: nat, k: nat, l: nat)
    requires i <= j <= k <= l <= out.Length
    ensures out[i..l] == out[i..j] + out[j..k] + out[k..l]
  {
  }

  lemma CodedSize(cb: Codebook, sym: seq<nat>)
    requires ValidBook(cb) && cb.k != 4 && sym != []
    ensures |CodedRow(cb, sym)| == ExcOffset(cb, |sym|) + (|Exceptions(cb, sym)| + 1) / 2
  {
  }

  // The count in front of the planes completes the row.
  lemma RowAssembled(cb: Codebook, sym: seq<nat>, h: seq<byte>, body: seq<byte>)
    requires ValidBook(cb) && cb.k != 4 && sym != []
    requires h == LeBytes(|Exceptions(cb, sym)| % 65536, 2)
    requires body == PackBits(BaseBits(cb, sym)) + PackBits(MaskBits(cb, sym)) + Packed(Exceptions(cb, sym))
    ensures h + body == CodedRow(cb, sym)
  {
    hide PackBits, BaseBits, MaskBits, Packed, Exceptions, LeBytes;
    var a, b, c := PackBits(BaseBits(cb, sym)), PackBits(MaskBits(cb, sym)), Packed(Exceptions(cb, sym));
    assert h + (a + b + c) == h + a + b + c;
  }

  // bitplane_encode_row: writes the coded row at out[off..]; -1 if it needs more than cap bytes.
  method EncodeRow(cb: Codebook, sym: seq<nat>, out: array<byte>, off: nat, cap: nat) returns (used: int)
    requires ValidBook(cb) && IsRow(sym) && off + cap <= out.Length
    modifies out
    ensures var c := CodedRow(cb, sym);
            && used == (if |c| <= cap then |c| else -1)
            && (|c| <= cap ==> out[off..off + |c|] == c)
    ensures forall i :: 0 <= i < out.Length && !(off <= i < off + cap) ==> out[i] == old(out[i])
  {
    hide PackBits, BaseBits, MaskBits, Packed, LeBytes, Exceptions;
    if |sym| <= 0 {
      return 0;
    }
    if cb.k == 4 {
      var need := (|sym| + 1) / 2;
      if need > cap {
        return -1;
      }
      PackNibbles(sym, out, off);
      return need;
    }
    CodedSize(cb, sym);
    if ExcOffset(cb, |sym|) > cap {
      return -1;
    }
    var nExc := EncodePlanes(cb, sym, out, off, cap);
    if nExc < 0 {
      return -1;
    }
    used := ExcOffset(cb, |sym|) + (nExc + 1) / 2;
    ghost var body := out[off + 2..off + used];
    Store(out, off, LeBytes(nExc % 65536, 2));
    assert out[off + 2..off + used] == body;
    hide CodedRow, PlanesIn;
    RowAssembled(cb, sym, LeBytes(nExc % 65536, 2), body);
    JoinSlices(out, off, off, off + 2, off + used);
  }

  // One position of the decoder: the same work whether or not it is an exception.
  method DecodeOne(cb: Codebook, base: BitReader, mask: BitReader, exc: seq<byte>, rank: nat) returns (s: nat, next: nat)
    requires ValidBook(cb) && cb.k != 4 && base != mask && base.Valid() && mask.Valid()
    modifies base, mask
    ensures base.Valid() && mask.Valid()
    ensures base.Rest() == DropBits(old(base.Rest()), cb.k) && mask.Rest() == DropBits(old(mask.Rest()), 1)
    ensures var isExc := FromBits(Window(old(mask.Rest()), 1));
            && next == rank + isExc
            && s == if isExc == 1 then Gather(exc, rank)
                    else (FromBits(Window(old(base.Rest()), cb.k)) + cb.bias) % 256
  {
    var code := base.Get(cb.k);
    var isExc := mask.Get(1);
    var packedByte := if rank / 2 < |exc| then exc[rank / 2] as int else 0;
    var excVal := if rank % 2 == 0 then packedByte % 16 else packedByte / 16;
    var baseVal := (code + cb.bias) % 256;
    s := if isExc == 1 then excVal else baseVal;
    next := rank + isExc;
  }

  // bitplane_decode_row.
  method DecodeRow(cb: Codebook, p: seq<byte>, n: nat, symOut: array<nat>)
    requires ValidBook(cb) && n <= symOut.Length
    requires cb.k == 4 ==> (n + 1) / 2 <= |p|
    requires cb.k != 4 && n > 0 ==> ExcOffset(cb, n) <= |p|
    modifies symOut
    ensures symOut[..n] == DecodedRow(cb, p, n)
  {
    if n <= 0 {
      return;
    }
    if cb.k == 4 {
      UnpackNibbles(p, n, symOut);
      return;
    }
    var base := new BitReader(p[2..MaskOffset(cb, n)]);
    var mask := new BitReader(p[MaskOffset(cb, n)..ExcOffset(cb, n)]);
    DecodePlanes(cb, base, mask, p[ExcOffset(cb, n)..], n, symOut);
  }

  method DecodePlanes(cb: Codebook, base: BitReader, mask: BitReader, exc: seq<byte>, n: nat, symOut: array<nat>)
    requires ValidBook(cb) && cb.k != 4 && n <= symOut.Length && base != mask && base.Valid() && mask.Valid()
    modifies symOut, base, mask
    ensures symOut[..n] == DecodeFrom(cb, old(base.Rest()), old(mask.Rest()), exc, 0, n)
  {
    hide DecodeFrom, Window, FromBits, DropBits, Gather, BitReader.Valid, BitReader.Rest;
    ghost var goal := DecodeFrom(cb, base.Rest(), mask.Rest(), exc, 0, n);
    ghost var done := [];
    var rank := 0;
    assert goal == [] + goal;
    for i := 0 to n
      invariant base.Valid() && mask.Valid()
      invariant goal == done + DecodeFrom(cb, base.Rest(), mask.Rest(), exc, rank, n - i)
      invariant |done| == i && forall j :: 0 <= j < i ==> symOut[j] == done[j]
    {
      ghost var b, m := base.Rest(), mask.Rest();
      ghost var r := rank;
      var s;
      s, rank := DecodeOne(cb, base, mask, exc, rank);
      DecodedStep(cb, b, m, exc, r, n - i, done, s, rank);
      done := done + [s];
      symOut[i] := s;
    }
    assert symOut[..n] == done;
  }

  lemma DecodedStep(cb: Codebook, base: BitString, mask: BitString, exc: seq<byte>, rank: nat, n: nat,
                    done: seq<nat>, s: nat, next: nat)
    requires n > 0
    requires var isExc := FromBits(Window(mask, 1));
             && next == rank + isExc
             && s == if isExc == 1 then Gather(exc, rank) else (FromBits(Window(base, cb.k)) + cb.bias) % 256
    ensures done + DecodeFrom(cb, base, mask, exc, rank, n)
         == (done + [s]) + DecodeFrom(cb, DropBits(base, cb.k), DropBits(mask, 1), exc, next, n - 1)
  {
  }
}
