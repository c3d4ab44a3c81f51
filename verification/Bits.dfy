/** Bit strings, and the LSB-first bit writer and reader of c/codec_row.h.
    A bit string lists its bits in stream order: index 0 is the bit written first. */
module Bits {
  import opened Arith

  type byte = x: int | 0 <= x < 256
  type BitString = seq<bool>

  // The low n bits of x, least significant first.
  function ToBits(x: nat, n: nat): (b: BitString)
    ensures |b| == n
  {
    if n == 0 then [] else [x % 2 == 1] + ToBits(x / 2, n - 1)
  }

  // The number whose binary digits, least significant first, are b.
  function FromBits(b: BitString): (x: nat)
    ensures x < Pow2(|b|)
  {
    if b == [] then 0 else (if b[0] then 1 else 0) + 2 * FromBits(b[1..])
  }

  function Zeros(n: nat): (b: BitString)
    ensures |b| == n
  {
    seq(n, _ => false)
  }

  // The first k bits of b, zero-padded when b is shorter.
  function Window(b: BitString, k: nat): (w: BitString)
    ensures |w| == k
  {
    if k <= |b| then b[..k] else b + Zeros(k - |b|)
  }

  function DropBits(b: BitString, k: nat): BitString {
    if k <= |b| then b[k..] else []
  }

  function BytesBits(bs: seq<byte>): (b: BitString)
    ensures |b| == 8 * |bs|
  {
    if bs == [] then [] else ToBits(bs[0], 8) + BytesBits(bs[1..])
  }

  // The bytes holding b, the last one padded with zero bits.
  function PackBits(b: BitString): (bs: seq<byte>)
    ensures |bs| == (|b| + 7) / 8
    decreases |b|
  {
    assert Pow2(8) == 256;
    if b == [] then [] else
      [FromBits(Window(b, 8))] + PackBits(DropBits(b, 8))
  }

  lemma {:induction false} FromTo(x: nat, n: nat)
    ensures FromBits(ToBits(x, n)) == Low(x, n)
  {
    if n > 0 {
      FromTo(x / 2, n - 1);
      assert ToBits(x, n)[1..] == ToBits(x / 2, n - 1);
    }
  }

  lemma {:induction false} ToFrom(b: BitString)
    ensures ToBits(FromBits(b), |b|) == b
  {
    if b != [] {
      ToFrom(b[1..]);
      assert FromBits(b) / 2 == FromBits(b[1..]);
    }
  }

  lemma {:induction false} ToBitsSplit(x: nat, n: nat, m: nat)
    ensures ToBits(x, n + m) == ToBits(x, n) + ToBits(Shr(x, n), m)
  {
    if n > 0 {
      ToBitsSplit(x / 2, n - 1, m);
      assert n + m - 1 == n - 1 + m;
    }
  }

  // Bits of x below position n do not depend on what lies above.
  lemma {:induction false} ToBitsLow(x: nat, n: nat)
    ensures ToBits(Low(x, n), n) == ToBits(x, n)
  {
    if n > 0 {
      ToBitsLow(x / 2, n - 1);
    }
  }

  // Appending bit fields: a in the low n bits, b in the next m.
  lemma ToBitsJoin(a: nat, n: nat, b: nat, m: nat)
    requires a < Pow2(n)
    ensures ToBits(a + Shl(b, n), n + m) == ToBits(a, n) + ToBits(b, m)
  {
    ShrLowUnique(a + Shl(b, n), n, b, a);
    ToBitsSplit(a + Shl(b, n), n, m);
    ToBitsLow(a + Shl(b, n), n);
  }

  lemma {:induction false} ToBitsZero(n: nat)
    ensures ToBits(0, n) == Zeros(n)
  {
    if n > 0 {
      ToBitsZero(n - 1);
    }
  }

  lemma ToBitsInjective(x: nat, y: nat, n: nat)
    requires x < Pow2(n) && y < Pow2(n) && ToBits(x, n) == ToBits(y, n)
    ensures x == y
  {
    FromTo(x, n);
    FromTo(y, n);
    LowSmall(x, n);
    LowSmall(y, n);
  }

  lemma {:induction false} BytesBitsAppend(a: seq<byte>, b: seq<byte>)
    ensures BytesBits(a + b) == BytesBits(a) + BytesBits(b)
  {
    if a == [] {
      assert a + b == b;
    } else {
      BytesBitsAppend(a[1..], b);
      assert (a + b)[1..] == a[1..] + b;
      var x, y, z := ToBits(a[0], 8), BytesBits(a[1..]), BytesBits(b);
      assert x + (y + z) == (x + y) + z;
    }
  }

  // Packing loses nothing: the bytes of b hold b followed by zero padding.
  lemma {:induction false} PackBitsBits(b: BitString)
    ensures BytesBits(PackBits(b)) == b + Zeros(8 * |PackBits(b)| - |b|)
    decreases |b|
  {
    if b != [] {
      ToFrom(Window(b, 8));
      PackBitsBits(DropBits(b, 8));
      var p := PackBits(b);
      assert p[1..] == PackBits(DropBits(b, 8));
      if |b| >= 8 {
        assert b[..8] + (b[8..] + Zeros(8 * |p[1..]| - |b[8..]|)) == b + Zeros(8 * |p| - |b|);
      }
    }
  }

  // Packing whole bytes and a last partial byte gives exactly those bytes.
  lemma {:induction false} PackBitsOfBytes(bs: seq<byte>, last: byte, n: nat)
    requires n < 8 && last < Pow2(n)
    ensures PackBits(BytesBits(bs) + ToBits(last, n)) == bs + (if n == 0 then [] else [last])
  {
    var t := ToBits(last, n);
    if bs == [] {
      assert BytesBits(bs) + t == t;
      if n > 0 {
        PackTail(last, n);
      }
    } else {
      PackBitsOfBytes(bs[1..], last, n);
      var x, y := ToBits(bs[0], 8), BytesBits(bs[1..]);
      PackByteFirst(bs[0], y + t);
      assert (x + y) + t == x + (y + t);
    }
  }

  lemma PackTail(last: byte, n: nat)
    requires 0 < n < 8 && last < Pow2(n)
    ensures PackBits(ToBits(last, n)) == [last]
  {
    FromTo(last, n);
    LowSmall(last, n);
    PackOne(ToBits(last, n));
  }

  lemma PackOne(b: BitString)
    requires 0 < |b| < 8
    ensures PackBits(b) == [FromBits(b)]
  {
    FromPadded(b, 8 - |b|);
    assert DropBits(b, 8) == [];
  }

  lemma PackByteFirst(x: byte, b: BitString)
    ensures PackBits(ToBits(x, 8) + b) == [x] + PackBits(b)
  {
    ByteBack(x);
    var c := ToBits(x, 8) + b;
    assert Window(c, 8) == ToBits(x, 8) && DropBits(c, 8) == b;
  }

  lemma ByteBack(x: byte)
    ensures FromBits(ToBits(x, 8)) == x
  {
    FromTo(x, 8);
    Byte(x);
  }

  // Reading past the end of a field sees zeros.
  lemma {:induction false} FromPadded(b: BitString, k: nat)
    ensures FromBits(b + Zeros(k)) == FromBits(b)
  {
    if b == [] {
      if k > 0 {
        FromPadded([], k - 1);
        assert ([] + Zeros(k))[1..] == [] + Zeros(k - 1);
      }
    } else {
      FromPadded(b[1..], k);
      assert (b + Zeros(k))[1..] == b[1..] + Zeros(k);
    }
  }

  function Reverse<T>(b: seq<T>): (r: seq<T>)
    ensures |r| == |b|
  {
    if b == [] then [] else Reverse(b[1..]) + [b[0]]
  }

  lemma {:induction false} ReverseSnoc<T>(b: seq<T>, c: T)
    ensures Reverse(b + [c]) == [c] + Reverse(b)
  {
    if b == [] {
      assert Reverse([c]) == Reverse([]) + [c];
    } else {
      ReverseSnoc(b[1..], c);
      assert (b + [c])[1..] == b[1..] + [c];
    }
  }

  // ---- byte buffers ----

  // memcpy of b to out[at..].
  method Store(out: array<byte>, at: nat, b: seq<byte>)
    requires at + |b| <= out.Length
    modifies out
    ensures out[at..at + |b|] == b
    ensures forall i :: 0 <= i < out.Length && !(at <= i < at + |b|) ==> out[i] == old(out[i])
  {
    for i := 0 to |b|
      invariant forall j :: 0 <= j < i ==> out[at + j] == b[j]
      invariant forall j :: 0 <= j < out.Length && !(at <= j < at + |b|) ==> out[j] == old(out[j])
    {
      out[at + i] := b[i];
    }
  }

  // The parts, one after another.
  function Concat(parts: seq<seq<byte>>): seq<byte> {
    if parts == [] then [] else parts[0] + Concat(parts[1..])
  }

  lemma {:induction false} ConcatAppend(a: seq<seq<byte>>, b: seq<seq<byte>>)
    ensures Concat(a + b) == Concat(a) + Concat(b)
  {
    hide Concat;
    if a == [] {
      assert a + b == b;
      ConcatNone();
    } else {
      ConcatAppend(a[1..], b);
      assert a == [a[0]] + a[1..] && a + b == [a[0]] + (a[1..] + b);
      ConcatCons(a[0], a[1..]);
      ConcatCons(a[0], a[1..] + b);
      assert a[0] + (Concat(a[1..]) + Concat(b)) == (a[0] + Concat(a[1..])) + Concat(b);
    }
  }

  lemma ConcatNone()
    ensures Concat([]) == []
  {
  }

  lemma ConcatCons(head: seq<byte>, tail: seq<seq<byte>>)
    ensures Concat([head] + tail) == head + Concat(tail)
  {
    assert ([head] + tail)[1..] == tail;
  }

  lemma SliceOfHead(a: seq<byte>, b: seq<byte>, i: nat, j: nat)
    requires i <= j <= |a|
    ensures (a + b)[i..j] == a[i..j]
  {
  }

  // ---- little-endian integers ----

  function LeBytes(x: nat, n: nat): (b: seq<byte>)
    ensures |b| == n
  {
    if n == 0 then [] else [x % 256] + LeBytes(x / 256, n - 1)
  }

  function LeValue(b: seq<byte>): nat {
    if b == [] then 0 else b[0] as int + 256 * LeValue(b[1..])
  }

  lemma {:induction false} LeBack(x: nat, n: nat)
    requires x < Pow2(8 * n)
    ensures LeValue(LeBytes(x, n)) == x
  {
    if n > 0 {
      Pow2Add(8, 8 * (n - 1));
      assert Pow2(8) == 256;
      assert x / 256 < Pow2(8 * (n - 1));
      LeBack(x / 256, n - 1);
      assert LeBytes(x, n)[1..] == LeBytes(x / 256, n - 1);
    }
  }

  lemma Pow16()
    ensures Pow2(16) == 65536
  {
    Pow2Add(8, 8);
    assert Pow2(8) == 256;
  }

  lemma Pow32()
    ensures Pow2(32) == 0x1_0000_0000
  {
    Pow16();
    Pow2Add(16, 16);
  }

  lemma LeBack16(x: nat)
    requires x < 65536
    ensures LeValue(LeBytes(x, 2)) == x
  {
    Pow16();
    LeBack(x, 2);
  }

  lemma LeBack32(x: nat)
    requires x < 0x1_0000_0000
    ensures LeValue(LeBytes(x, 4)) == x
  {
    Pow32();
    LeBack(x, 4);
  }

  lemma {:induction false} LeForth(b: seq<byte>)
    ensures LeBytes(LeValue(b), |b|) == b && LeValue(b) < Pow2(8 * |b|)
  {
    if b != [] {
      LeForth(b[1..]);
      Pow2Add(8, 8 * |b[1..]|);
      assert Pow2(8) == 256;
      var v := b[0] as int + 256 * LeValue(b[1..]);
      assert v % 256 == b[0] && v / 256 == LeValue(b[1..]);
    }
  }

  // Bitwise or.
  function Or(a: nat, b: nat): nat
    decreases a + b
  {
    if a == 0 && b == 0 then 0 else
      (if a % 2 == 1 || b % 2 == 1 then 1 else 0) + 2 * Or(a / 2, b / 2)
  }

  // Or-ing a field above the bits already in use is addition.
  lemma {:induction false} OrDisjoint(a: nat, b: nat, n: nat)
    requires a < Pow2(n)
    ensures Or(a, Shl(b, n)) == a + Shl(b, n)
  {
    if n == 0 {
      OrZero(b);
    } else {
      OrDisjoint(a / 2, b, n - 1);
    }
  }

  lemma {:induction false} OrZero(b: nat)
    ensures Or(0, b) == b
  {
    if b > 0 {
      OrZero(b / 2);
    }
  }
}
