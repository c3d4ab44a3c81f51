/** The bounded bit writer CodecBitW and the bit reader CodecBitR of c/codec_row.h. */
module BitIO {
  import opened Arith
  import opened Bits

  class BitWriter {
    const buf: array<byte>  // the output buffer; this writer owns buf[off..off + cap]
    const off: nat
    const cap: nat
    var pos: nat            // bytes produced, counted even past cap
    var acc: nat            // a uint32 in the source
    var nbits: nat
    ghost var written: BitString  // every bit put so far
    ghost var full: seq<byte>     // every whole byte produced so far

    // Everything written is in the whole bytes and the accumulator, and the
    // whole bytes that fit are in the buffer.
    ghost predicate Consistent()
      reads this, buf
    {
      && off + cap <= buf.Length
      && acc < Pow2(nbits)
      && |full| == pos
      && written == BytesBits(full) + ToBits(acc, nbits)
      && forall i :: 0 <= i < pos && i < cap ==> buf[off + i] == full[i]
    }

    ghost predicate Valid()
      reads this, buf
    {
      Consistent() && nbits < 8
    }

    constructor (buf: array<byte>, off: nat, cap: nat)
      requires off + cap <= buf.Length
      ensures Valid() && written == []
      ensures this.buf == buf && this.off == off && this.cap == cap
    {
      this.buf, this.off, this.cap := buf, off, cap;
      pos, acc, nbits := 0, 0, 0;
      written, full := [], [];
    }

    // Appends the low len bits of code. The source asks for len <= 24, so that
    // the 32-bit accumulator cannot overflow.
    method Put(code: nat, len: int)
      requires Valid() && len <= 24
      modifies this, buf
      ensures Valid()
      ensures written == old(written) + ToBits(code, if len <= 0 then 0 else len)
      ensures forall i :: 0 <= i < buf.Length && !(off <= i < off + cap) ==> buf[i] == old(buf[i])
    {
      hide BytesBits, ToBits;
      if len <= 0 {
        NoBits(code);
        return;
      }
      AppendBits(acc, nbits, Low(code, len), len, 32);
      ToBitsLow(code, len);
      acc := Low(Or(acc, Shl(Low(code, len), nbits)), 32);
      nbits := nbits + len;
      written := written + ToBits(code, len);
      while nbits >= 8
        invariant Consistent() && nbits < 32
        invariant written == old(written) + ToBits(code, len)
        invariant forall i :: 0 <= i < buf.Length && !(off <= i < off + cap) ==> buf[i] == old(buf[i])
      {
        EmitByte();
      }
    }

    // Moves the low byte of the accumulator to the buffer, if it still fits.
    method EmitByte()
      requires Consistent() && nbits >= 8
      modifies this, buf
      ensures Consistent() && nbits == old(nbits) - 8
      ensures written == old(written)
      ensures forall i :: 0 <= i < buf.Length && !(off <= i < off + cap) ==> buf[i] == old(buf[i])
    {
      hide BytesBits, ToBits, Low, Shr, Pow2;
      FlushByte(full, acc, nbits);
      var b := Low(acc, 8);
      if pos < cap {
        buf[off + pos] := b;
      }
      full := full + [b];
      pos := pos + 1;
      acc := Shr(acc, 8);
      nbits := nbits - 8;
    }

    // Flushes the partial byte, padded with zero bits; returns the bytes produced.
    method Finish() returns (used: nat)
      requires Valid()
      modifies this, buf
      ensures used == |PackBits(old(written))|
      ensures forall i :: 0 <= i < used && i < cap ==> buf[off + i] == PackBits(old(written))[i]
      ensures forall i :: 0 <= i < buf.Length && !(off <= i < off + cap) ==> buf[i] == old(buf[i])
    {
      hide BytesBits, ToBits, PackBits;
      assert acc < 256 by {
        Pow2Mono(nbits, 8);
        assert Pow2(8) == 256;
      }
      PackBitsOfBytes(full, acc, nbits);
      if nbits > 0 {
        Byte(acc);
        if pos < cap {
          buf[off + pos] := Low(acc, 8);
        }
        pos := pos + 1;
        acc, nbits := 0, 0;
      }
      used := pos;
    }
  }

  lemma NoBits(x: nat)
    ensures ToBits(x, 0) == []
  {
  }

  // Or-ing a field above the n bits in use, in a register of w bits, loses nothing.
  lemma AppendBits(acc: nat, n: nat, f: nat, m: nat, w: nat)
    requires acc < Pow2(n) && f < Pow2(m) && n + m <= w
    ensures var a := Low(Or(acc, Shl(f, n)), w);
            a < Pow2(n + m) && ToBits(a, n + m) == ToBits(acc, n) + ToBits(f, m)
  {
    OrDisjoint(acc, f, n);
    ShlBound(f, n, m);
    Pow2Mono(n + m, w);
    LowSmall(acc + Shl(f, n), w);
    ToBitsJoin(acc, n, f, m);
  }

  lemma FlushByte(full: seq<byte>, acc: nat, n: nat)
    requires 8 <= n && acc < Pow2(n)
    ensures Low(acc, 8) < 256 && Shr(acc, 8) < Pow2(n - 8)
    ensures BytesBits(full) + ToBits(acc, n)
         == BytesBits(full + [Low(acc, 8)]) + ToBits(Shr(acc, 8), n - 8)
  {
    Byte(acc);
    hide BytesBits, ToBits, Low, Shr;
    ShrBound(acc, 8, n - 8);
    ToBitsSplit(acc, 8, n - 8);
    ToBitsLow(acc, 8);
    var b := Low(acc, 8);
    BytesBitsAppend(full, [b]);
    OneByteBits(b);
    assert BytesBits(full) + (ToBits(b, 8) + ToBits(Shr(acc, 8), n - 8))
        == (BytesBits(full) + ToBits(b, 8)) + ToBits(Shr(acc, 8), n - 8);
  }

  lemma OneByteBits(b: byte)
    ensures BytesBits([b]) == ToBits(b, 8)
  {
    hide ToBits;
    assert [b][1..] == [] && BytesBits([]) == [];
  }

  class BitReader {
    const buf: seq<byte>
    var pos: nat
    var acc: nat  // a uint64 in the source
    var nbits: int

    // nbits is negative only after a read past the end of the stream.
    ghost predicate Valid()
      reads this
    {
      && pos <= |buf| && nbits < 64
      && (nbits < 0 ==> pos == |buf|)
      && acc < Pow2(Avail())
    }

    ghost function Avail(): nat
      reads this
    {
      if nbits < 0 then 0 else nbits
    }

    // The bits not yet consumed.
    ghost function Rest(): BitString
      requires Valid()
      reads this
    {
      ToBits(acc, Avail()) + BytesBits(buf[pos..])
    }

    constructor (buf: seq<byte>)
      ensures Valid() && Rest() == BytesBits(buf)
    {
      this.buf := buf;
      pos, acc, nbits := 0, 0, 0;
    }

    method Refill(need: nat)
      requires Valid() && need <= 32
      modifies this
      ensures Valid() && Rest() == old(Rest())
      ensures nbits >= need || pos == |buf|
    {
      hide BytesBits, ToBits, Low, Or, Shl, Pow2;
      while nbits < need && pos < |buf|
        invariant Valid() && Rest() == old(Rest())
      {
        RefillByte(acc, nbits, buf, pos);
        acc := Low(Or(acc, Shl(buf[pos], nbits)), 64);
        pos := pos + 1;
        nbits := nbits + 8;
      }
    }

    // The next k bits without consuming them; zeros past the end of the stream.
    method Peek(k: nat) returns (v: nat)
      requires Valid() && k <= 32
      requires nbits >= k || pos == |buf|
      ensures v == FromBits(Window(Rest(), k)) && v < Pow2(k)
    {
      v := Low(acc, k);
      PeekBits(acc, Avail(), k);
      if nbits >= k {
        assert Window(Rest(), k) == ToBits(acc, Avail())[..k];
      } else {
        assert Rest() == ToBits(acc, Avail());
      }
    }

    method Drop(k: nat)
      requires Valid()
      requires nbits >= k || pos == |buf|
      modifies this
      ensures Valid() && Rest() == DropBits(old(Rest()), k)
    {
      hide ToBits, BytesBits, Shr, Pow2, DropBits;
      DropWithin(acc, Avail(), k, BytesBits(buf[pos..]));
      DropBeyond(acc, Avail(), k);
      acc := Shr(acc, k);
      nbits := nbits - k;
    }

    method Get(k: nat) returns (v: nat)
      requires Valid() && k <= 32
      modifies this
      ensures Valid() && Rest() == DropBits(old(Rest()), k)
      ensures v == FromBits(Window(old(Rest()), k)) && v < Pow2(k)
    {
      Refill(k);
      v := Peek(k);
      Drop(k);
    }
  }

  lemma RefillByte(acc: nat, n: nat, buf: seq<byte>, pos: nat)
    requires n < 32 && acc < Pow2(n) && pos < |buf|
    ensures var a := Low(Or(acc, Shl(buf[pos], n)), 64);
            a < Pow2(n + 8) && ToBits(a, n + 8) + BytesBits(buf[pos + 1..]) == ToBits(acc, n) + BytesBits(buf[pos..])
  {
    hide ToBits, Or, Shl, Low;
    var b := buf[pos];
    assert Pow2(8) == 256;
    AppendBits(acc, n, b, 8, 64);
    assert BytesBits(buf[pos..]) == ToBits(b, 8) + BytesBits(buf[pos + 1..]) by {
      assert buf[pos..][1..] == buf[pos + 1..];
    }
    assert (ToBits(acc, n) + ToBits(b, 8)) + BytesBits(buf[pos + 1..])
        == ToBits(acc, n) + (ToBits(b, 8) + BytesBits(buf[pos + 1..]));
  }

  lemma DropWithin(acc: nat, n: nat, k: nat, tail: BitString)
    requires acc < Pow2(n)
    ensures k <= n ==> Shr(acc, k) < Pow2(n - k)
    ensures k <= n ==> DropBits(ToBits(acc, n) + tail, k) == ToBits(Shr(acc, k), n - k) + tail
  {
    hide Shr;
    if k <= n {
      ShrBound(acc, k, n - k);
      ToBitsSplit(acc, k, n - k);
    }
  }

  // Past the end of the stream nothing is left.
  lemma DropBeyond(acc: nat, n: nat, k: nat)
    requires acc < Pow2(n)
    ensures BytesBits([]) == [] && ToBits(Shr(acc, k), 0) == [] && Pow2(0) == 1
    ensures k > n ==> Shr(acc, k) == 0 && DropBits(ToBits(acc, n) + [], k) == []
  {
    if k > n {
      Pow2Mono(n, k);
      LowSmall(acc, k);
    }
  }

  lemma PeekBits(acc: nat, n: nat, k: nat)
    requires acc < Pow2(n)
    ensures Low(acc, k) == FromBits(Window(ToBits(acc, n), k))
  {
    if k <= n {
      ToBitsSplit(acc, k, n - k);
      FromTo(acc, k);
    } else {
      FromPadded(ToBits(acc, n), k - n);
      FromTo(acc, n);
      LowSmall(acc, n);
      Pow2Mono(n, k);
      LowSmall(acc, k);
    }
  }
}
