/** The nibble packing of c/codec_row.h: two 4-bit symbols a byte, even index in the low half. */
module Nibbles {
  import opened Arith
  import opened Bits

  // Byte k of the packed form of sym.
  function NibbleByte(sym: seq<nat>, k: nat): (b: byte)
    requires 2 * k < |sym|
  {
    sym[2 * k] % 16 + (if 2 * k + 1 < |sym| then 16 * (sym[2 * k + 1] % 16) else 0)
  }

  function Packed(sym: seq<nat>): (p: seq<byte>)
    ensures |p| == (|sym| + 1) / 2
  {
    seq((|sym| + 1) / 2, k requires 0 <= k < (|sym| + 1) / 2 => NibbleByte(sym, k))
  }

  function NibbleAt(p: seq<byte>, i: nat): nat
    requires i / 2 < |p|
  {
    if i % 2 == 0 then p[i / 2] as int % 16 else p[i / 2] as int / 16
  }

  // Unpacking gives back the low four bits of every symbol.
  lemma UnpackPacked(sym: seq<nat>, i: nat)
    requires i < |sym|
    ensures NibbleAt(Packed(sym), i) == sym[i] % 16
  {
    var k := i / 2;
    assert i == 2 * k || i == 2 * k + 1;
    assert Packed(sym)[k] == NibbleByte(sym, k);
  }

  lemma NibbleOr(a: nat, b: nat)
    requires a < 16 && b < 16
    ensures Or(a, Shl(b, 4)) == a + 16 * b
  {
    assert Pow2(4) == 16;
    OrDisjoint(a, b, 4);
    ShlIsMul(b, 4);
  }

  lemma NibblePair(sym: seq<nat>, i: nat)
    requires i % 2 == 0 && i < |sym|
    ensures NibbleByte(sym, i / 2) == if i + 1 < |sym| then Or(sym[i] % 16, Shl(sym[i + 1] % 16, 4)) else sym[i] % 16
  {
    hide Or, Shl;
    assert 2 * (i / 2) == i;
    if i + 1 < |sym| {
      NibbleOr(sym[i] % 16, sym[i + 1] % 16);
    }
  }

  method PackNibbles(sym: seq<nat>, packed: array<byte>, off: nat)
    requires off + (|sym| + 1) / 2 <= packed.Length
    modifies packed
    ensures packed[off..off + (|sym| + 1) / 2] == Packed(sym)
    ensures forall j :: 0 <= j < packed.Length && !(off <= j < off + (|sym| + 1) / 2) ==> packed[j] == old(packed[j])
  {
    hide NibbleByte, Or, Shl;
    var n, i := |sym|, 0;
    while i + 1 < n
      invariant 0 <= i <= n && i % 2 == 0
      invariant forall j :: 0 <= j < i / 2 ==> packed[off + j] == NibbleByte(sym, j)
      invariant forall j :: 0 <= j < packed.Length && !(off <= j < off + (n + 1) / 2) ==> packed[j] == old(packed[j])
    {
      NibblePair(sym, i);
      packed[off + i / 2] := Or(sym[i] % 16, Shl(sym[i + 1] % 16, 4));
      i := i + 2;
    }
    if i < n {
      NibblePair(sym, i);
      packed[off + i / 2] := sym[i] % 16;
    }
    assert packed[off..off + (n + 1) / 2] == Packed(sym);
  }

  method UnpackNibbles(packed: seq<byte>, n: nat, sym: array<nat>)
    requires (n + 1) / 2 <= |packed| && n <= sym.Length
    modifies sym
    ensures forall j :: 0 <= j < n ==> sym[j] == NibbleAt(packed, j)
  {
    var i := 0;
    while i + 1 < n
      invariant 0 <= i <= n && i % 2 == 0
      invariant forall j :: 0 <= j < i ==> sym[j] == NibbleAt(packed, j)
    {
      var b := packed[i / 2] as int;
      sym[i], sym[i + 1] := b % 16, b / 16;
      i := i + 2;
    }
    if i < n {
      sym[i] := packed[i / 2] as int % 16;
    }
  }

  // Appending a symbol starts a new byte or completes the last one.
  lemma PackedSnoc(sym: seq<nat>, s: nat)
    requires s < 16
    ensures |sym| % 2 == 0 ==> Packed(sym + [s]) == Packed(sym) + [s]
    ensures |sym| % 2 == 1 ==>
              var p, k := Packed(sym), |sym| / 2;
              k < |p| && Or(p[k], Shl(s, 4)) < 256 && Packed(sym + [s]) == p[k := Or(p[k], Shl(s, 4))]
  {
    hide Or, Shl, NibbleByte;
    var k, next := |sym| / 2, sym + [s];
    PackedBefore(sym, s);
    if |sym| % 2 == 1 {
      HalfByte(sym, s);
      assert Packed(next) == Packed(sym)[k := Or(Packed(sym)[k], Shl(s, 4))];
    } else {
      NewByte(sym, s);
      assert Packed(next) == Packed(sym) + [s];
    }
  }

  // The bytes before the one a new symbol goes to stay as they are.
  lemma PackedBefore(sym: seq<nat>, s: nat)
    ensures forall j :: 0 <= j < |sym| / 2 ==> NibbleByte(sym + [s], j) == NibbleByte(sym, j)
  {
    var next := sym + [s];
    forall j | 0 <= j < |sym| / 2
      ensures NibbleByte(next, j) == NibbleByte(sym, j)
    {
      assert next[2 * j] == sym[2 * j] && next[2 * j + 1] == sym[2 * j + 1];
    }
  }

  lemma HalfByte(sym: seq<nat>, s: nat)
    requires s < 16 && |sym| % 2 == 1
    ensures Or(NibbleByte(sym, |sym| / 2), Shl(s, 4)) == NibbleByte(sym + [s], |sym| / 2)
  {
    hide Or, Shl;
    var k, next := |sym| / 2, sym + [s];
    assert 2 * k + 1 == |sym|;
    var x := sym[2 * k] % 16;
    NibbleOr(x, s);
    assert next[2 * k] == sym[2 * k] && next[2 * k + 1] == s && s % 16 == s;
    assert NibbleByte(sym, k) == x;
    assert NibbleByte(next, k) == x + 16 * s;
  }

  lemma NewByte(sym: seq<nat>, s: nat)
    requires s < 16 && |sym| % 2 == 0
    ensures NibbleByte(sym + [s], |sym| / 2) == s
  {
    assert (sym + [s])[2 * (|sym| / 2)] == s;
  }
}
