/** The 32-bit CRC of c/mode15_reader.c: the table-driven update against the shift register of
    section 8 of RFC 1952, and the error bursts it always detects. A uint32_t is its 32 bits, least
    significant first, so >> drops leading bits and ^ works bit by bit. */
module Crc {
  import opened Arith
  import opened Bits

  const WIDTH := 32

  // The polynomial 0xEDB88320.
  function Poly(): (p: BitString)
    ensures |p| == WIDTH
  {
    ToBits(0xEDB8_8320, WIDTH)
  }

  function Ones(): (p: BitString)
    ensures |p| == WIDTH
  {
    seq(WIDTH, _ => true)
  }

  // a ^ b.
  function Xor(a: BitString, b: BitString): (c: BitString)
    requires |a| == |b|
    ensures |c| == |a|
    ensures forall i :: 0 <= i < |c| ==> c[i] == (a[i] != b[i])
  {
    seq(|a|, i requires 0 <= i < |a| => a[i] != b[i])
  }

  // c >> k.
  function ShiftRight(c: BitString, k: nat): (r: BitString)
    requires k <= |c|
    ensures |r| == |c|
    ensures forall i :: 0 <= i < |c| ==> r[i] == (i + k < |c| && c[i + k])
  {
    c[k..] + Zeros(k)
  }

  // b as a 32-bit value.
  function Word(b: BitString): (w: BitString)
    requires |b| <= WIDTH
    ensures |w| == WIDTH
    ensures forall i :: 0 <= i < WIDTH ==> w[i] == (i < |b| && b[i])
  {
    b + Zeros(WIDTH - |b|)
  }

  // One shift of the register.
  function T1(c: BitString): (r: BitString)
    requires |c| == WIDTH
    ensures |r| == WIDTH
    ensures forall i :: 0 <= i < WIDTH ==> r[i] == ((i + 1 < WIDTH && c[i + 1]) != (c[0] && Poly()[i]))
  {
    if c[0] then Xor(Poly(), ShiftRight(c, 1)) else ShiftRight(c, 1)
  }

  function Steps(n: nat, c: BitString): (r: BitString)
    requires |c| == WIDTH
    ensures |r| == WIDTH
  {
    if n == 0 then c else Steps(n - 1, T1(c))
  }

  // The reference: every message bit enters at the low end and the register shifts once.
  function Register(r: BitString, b: BitString): (s: BitString)
    requires |r| == WIDTH
    ensures |s| == WIDTH
    decreases |b|
  {
    if b == [] then r else Register(T1(Xor(r, Word([b[0]]))), b[1..])
  }

  // The CRC of a message: register preset to ones, result complemented.
  function Crc32(data: seq<byte>): (c: nat)
    ensures c < Pow2(WIDTH)
  {
    FromBits(Xor(Register(Ones(), BytesBits(data)), Ones()))
  }

  // ---- linearity ----

  lemma T1Linear(a: BitString, b: BitString)
    requires |a| == |b| == WIDTH
    ensures T1(Xor(a, b)) == Xor(T1(a), T1(b))
  {
    hide T1, Xor;
    forall i | 0 <= i < WIDTH
      ensures T1(Xor(a, b))[i] == Xor(T1(a), T1(b))[i]
    {
    }
  }

  lemma {:induction false} TopBit(x: nat, n: nat)
    requires Pow2(n) <= x < Pow2(n + 1)
    ensures ToBits(x, n + 1)[n]
  {
    if n > 0 {
      TopBit(x / 2, n - 1);
    }
  }

  lemma PolyTop()
    ensures Poly()[WIDTH - 1]
  {
    Pow32();
    assert Pow2(WIDTH) == 2 * Pow2(WIDTH - 1);
    TopBit(0xEDB8_8320, WIDTH - 1);
  }

  lemma T1Injective(a: BitString, b: BitString)
    requires |a| == |b| == WIDTH && T1(a) == T1(b)
    ensures a == b
  {
    hide T1, Poly;
    PolyTop();
    assert T1(a)[WIDTH - 1] == a[0] && T1(b)[WIDTH - 1] == b[0];
    forall i | 0 < i < WIDTH
      ensures a[i] == b[i]
    {
      T1At(a, i - 1);
      T1At(b, i - 1);
    }
  }

  lemma T1At(a: BitString, i: nat)
    requires |a| == WIDTH && i + 1 < WIDTH
    ensures a[i + 1] == (T1(a)[i] != (a[0] && Poly()[i]))
  {
    hide T1, Poly;
  }

  lemma {:induction false} StepsLinear(n: nat, a: BitString, b: BitString)
    requires |a| == |b| == WIDTH
    ensures Steps(n, Xor(a, b)) == Xor(Steps(n, a), Steps(n, b))
  {
    hide T1, Xor;
    if n > 0 {
      T1Linear(a, b);
      StepsLinear(n - 1, T1(a), T1(b));
    }
  }

  lemma {:induction false} StepsInjective(n: nat, a: BitString, b: BitString)
    requires |a| == |b| == WIDTH && Steps(n, a) == Steps(n, b)
    ensures a == b
  {
    hide T1;
    if n > 0 {
      StepsInjective(n - 1, T1(a), T1(b));
      T1Injective(a, b);
    }
  }

  // A value whose low n bits are clear only shifts.
  lemma {:induction false} StepsShift(n: nat, c: BitString)
    requires |c| == WIDTH && n <= WIDTH && forall i :: 0 <= i < n ==> !c[i]
    ensures Steps(n, c) == ShiftRight(c, n)
  {
    hide T1, ShiftRight;
    if n == 0 {
      assert c == ShiftRight(c, 0);
    } else {
      var d := T1(c);
      assert forall i :: 0 <= i < n - 1 ==> !d[i];
      StepsShift(n - 1, d);
      assert ShiftRight(d, n - 1) == ShiftRight(c, n);
    }
  }

  // Up to 32 message bits may enter the register all at once before it shifts.
  lemma {:induction false} RegisterAtOnce(r: BitString, b: BitString)
    requires |r| == WIDTH && |b| <= WIDTH
    ensures Register(r, b) == Steps(|b|, Xor(r, Word(b)))
    decreases |b|
  {
    hide T1, Xor, Word;
    if b == [] {
      assert Xor(r, Word(b)) == r;
    } else {
      var next := T1(Xor(r, Word([b[0]])));
      RegisterAtOnce(next, b[1..]);
      assert T1(Xor(r, Word(b))) == Xor(next, Word(b[1..]));
    }
  }

  lemma {:induction false} RegisterAppend(r: BitString, a: BitString, b: BitString)
    requires |r| == WIDTH
    ensures Register(r, a + b) == Register(Register(r, a), b)
    decreases |a|
  {
    hide T1, Xor, Word;
    if a == [] {
      assert a + b == b;
    } else {
      assert (a + b)[1..] == a[1..] + b;
      RegisterAppend(T1(Xor(r, Word([a[0]]))), a[1..], b);
    }
  }

  lemma {:induction false} RegisterInjective(r: BitString, s: BitString, b: BitString)
    requires |r| == |s| == WIDTH && Register(r, b) == Register(s, b)
    ensures r == s
    decreases |b|
  {
    hide T1, Xor, Word;
    if b != [] {
      var x := Word([b[0]]);
      RegisterInjective(T1(Xor(r, x)), T1(Xor(s, x)), b[1..]);
      T1Injective(Xor(r, x), Xor(s, x));
      XorCancel(r, s, x);
    }
  }

  lemma XorCancel(r: BitString, s: BitString, x: BitString)
    requires |r| == |s| == |x| && Xor(r, x) == Xor(s, x)
    ensures r == s
  {
    hide Xor;
    forall i | 0 <= i < |r|
      ensures r[i] == s[i]
    {
      assert Xor(r, x)[i] == Xor(s, x)[i];
    }
  }

  // Two messages that differ, and differ only within 32 consecutive bits, leave different registers.
  lemma BurstDetected(p: BitString, u: BitString, v: BitString, s: BitString)
    requires |u| == |v| <= WIDTH && u != v
    ensures Register(Ones(), p + u + s) != Register(Ones(), p + v + s)
  {
    if Register(Ones(), p + u + s) == Register(Ones(), p + v + s) {
      var r := Register(Ones(), p);
      RegisterAppend(Ones(), p + u, s);
      RegisterAppend(Ones(), p + v, s);
      RegisterAppend(Ones(), p, u);
      RegisterAppend(Ones(), p, v);
      RegisterInjective(Register(r, u), Register(r, v), s);
      SameEntry(r, u, v);
      assert false;
    }
  }

  lemma SameEntry(r: BitString, u: BitString, v: BitString)
    requires |r| == WIDTH && |u| == |v| <= WIDTH && Register(r, u) == Register(r, v)
    ensures u == v
  {
    hide T1, Xor, Word, Steps, Register;
    RegisterAtOnce(r, u);
    RegisterAtOnce(r, v);
    StepsInjective(|u|, Xor(r, Word(u)), Xor(r, Word(v)));
    forall i | 0 <= i < |u|
      ensures u[i] == v[i]
    {
      assert Xor(r, Word(u))[i] == Xor(r, Word(v))[i];
      assert Word(u)[i] == Word(v)[i];
    }
  }

  lemma {:induction false} BytesBitsInjective(a: seq<byte>, b: seq<byte>)
    requires |a| == |b| && BytesBits(a) == BytesBits(b)
    ensures a == b
  {
    if a != [] {
      assert BytesBits(a)[..8] == ToBits(a[0], 8) && BytesBits(b)[..8] == ToBits(b[0], 8);
      assert BytesBits(a)[8..] == BytesBits(a[1..]) && BytesBits(b)[8..] == BytesBits(b[1..]);
      ByteBack(a[0]);
      ByteBack(b[0]);
      BytesBitsInjective(a[1..], b[1..]);
    }
  }

  // Inputs of one length that differ only within four consecutive bytes never share a CRC.
  lemma CrcDetectsBurst(p: seq<byte>, u: seq<byte>, v: seq<byte>, s: seq<byte>)
    requires |u| == |v| <= 4 && u != v
    ensures Crc32(p + u + s) != Crc32(p + v + s)
  {
    hide Register, BytesBits, Xor, FromBits, Ones, Crc32;
    BytesBitsAppend(p + u, s);
    BytesBitsAppend(p, u);
    BytesBitsAppend(p + v, s);
    BytesBitsAppend(p, v);
    if BytesBits(u) == BytesBits(v) {
      BytesBitsInjective(u, v);
    }
    BurstDetected(BytesBits(p), BytesBits(u), BytesBits(v), BytesBits(s));
    if Crc32(p + u + s) == Crc32(p + v + s) {
      CrcIsRegister(p + u + s, p + v + s);
    }
  }

  lemma CrcIsRegister(a: seq<byte>, b: seq<byte>)
    requires Crc32(a) == Crc32(b)
    ensures Register(Ones(), BytesBits(a)) == Register(Ones(), BytesBits(b))
  {
    var x := Register(Ones(), BytesBits(a));
    var y := Register(Ones(), BytesBits(b));
    ToFrom(Xor(x, Ones()));
    ToFrom(Xor(y, Ones()));
    XorCancel(x, y, Ones());
  }

  // ---- which CRC it is ----

  function BitOf(b: bool): nat {
    if b then 1 else 0
  }

  lemma OneBit(x: nat, n: nat, b: bool)
    ensures ToBits(2 * x + BitOf(b), n + 1) == [b] + ToBits(x, n)
  {
    var y := 2 * x + BitOf(b);
    assert y / 2 == x && (y % 2 == 1 <==> b);
  }

  lemma FourBits(q: nat, n: nat, a: bool, b: bool, c: bool, d: bool)
    ensures ToBits(16 * q + 8 * BitOf(d) + 4 * BitOf(c) + 2 * BitOf(b) + BitOf(a), n + 4) == [a, b, c, d] + ToBits(q, n)
  {
    hide ToBits;
    OneBit(q, n, d);
    OneBit(2 * q + BitOf(d), n + 1, c);
    OneBit(2 * (2 * q + BitOf(d)) + BitOf(c), n + 2, b);
    OneBit(2 * (2 * (2 * q + BitOf(d)) + BitOf(c)) + BitOf(b), n + 3, a);
    assert [a] + ([b] + ([c] + ([d] + ToBits(q, n)))) == [a, b, c, d] + ToBits(q, n);
  }

  // x^32 + x^26 + x^23 + x^22 + x^16 + x^12 + x^11 + x^10 + x^8 + x^7 + x^5 + x^4 + x^2 + x + 1, the
  // highest power in the lowest bit and x^32 left out.
  lemma PolyTerms(i: nat)
    requires i < WIDTH
    ensures Poly()[i] <==> 31 - i in {26, 23, 22, 16, 12, 11, 10, 8, 7, 5, 4, 2, 1, 0}
  {
    hide ToBits;
    FourBits(0xEDB_8832, 28, false, false, false, false);
    FourBits(0xED_B883, 24, false, true, false, false);
    FourBits(0xE_DB88, 20, true, true, false, false);
    FourBits(0xEDB8, 16, false, false, false, true);
    FourBits(0xEDB, 12, false, false, false, true);
    FourBits(0xED, 8, true, true, false, true);
    FourBits(0xE, 4, true, false, true, true);
    FourBits(0, 0, false, true, true, true);
    ToBitsNone();
  }

  lemma ToBitsNone()
    ensures ToBits(0, 0) == []
  {
  }

  // The complement of a 32-bit value.
  lemma {:induction false} ComplementIs(b: BitString, ones: BitString)
    requires |b| == |ones| && forall i :: 0 <= i < |ones| ==> ones[i]
    ensures FromBits(Xor(b, ones)) == Pow2(|b|) - 1 - FromBits(b)
    decreases |b|
  {
    if b != [] {
      ComplementIs(b[1..], ones[1..]);
      assert Xor(b, ones)[1..] == Xor(b[1..], ones[1..]);
    }
  }

  // The 32 bits of a message against those of the preset register.
  lemma FourByteCrc(data: seq<byte>, x: BitString)
    requires |BytesBits(data)| == WIDTH && x == Xor(Ones(), BytesBits(data))
    ensures Crc32(data) == 0xFFFF_FFFF - FromBits(Steps(WIDTH, x))
  {
    hide Steps, Register, Word;
    RegisterAtOnce(Ones(), BytesBits(data));
    WholeWord(BytesBits(data));
    ComplementIs(Register(Ones(), BytesBits(data)), Ones());
    Pow32();
  }

  lemma WholeWord(b: BitString)
    requires |b| == WIDTH
    ensures Word(b) == b
  {
  }

  // Check values: four bytes 0xFF cancel the preset register, and without their last bit leave the
  // polynomial in it.
  lemma CheckValues()
    ensures Crc32([0xFF, 0xFF, 0xFF, 0xFF]) == 0xFFFF_FFFF
    ensures Crc32([0xFF, 0xFF, 0xFF, 0x7F]) == 0x1247_7CDF
  {
    hide Steps, Crc32, BytesBits, Poly, T1;
    BitsOfFour(0xFF);
    BitsOfFour(0x7F);
    var none, top := Zeros(WIDTH), Zeros(WIDTH)[WIDTH - 1 := true];
    assert Xor(Ones(), BytesBits([0xFF, 0xFF, 0xFF, 0xFF])) == none;
    assert Xor(Ones(), BytesBits([0xFF, 0xFF, 0xFF, 0x7F])) == top;
    FourByteCrc([0xFF, 0xFF, 0xFF, 0xFF], none);
    FourByteCrc([0xFF, 0xFF, 0xFF, 0x7F], top);
    StepsShift(WIDTH, none);
    assert ShiftRight(none, WIDTH) == none;
    ZerosValue(WIDTH);
    TopSteps(top);
    PolyValue();
  }

  lemma {:induction false} ZerosValue(n: nat)
    ensures FromBits(Zeros(n)) == 0
  {
    if n > 0 {
      ZerosValue(n - 1);
      assert Zeros(n)[1..] == Zeros(n - 1);
    }
  }

  lemma PolyValue()
    ensures FromBits(Poly()) == 0xEDB8_8320
  {
    hide ToBits, FromBits;
    FromTo(0xEDB8_8320, WIDTH);
    Pow32();
    LowSmall(0xEDB8_8320, WIDTH);
  }

  lemma TopSteps(top: BitString)
    requires |top| == WIDTH && forall i :: 0 <= i < WIDTH ==> top[i] == (i == WIDTH - 1)
    ensures Steps(WIDTH, top) == Poly()
  {
    hide T1, ToBits, Steps;
    StepsThen(WIDTH - 1, 1, top);
    StepsShift(WIDTH - 1, top);
    var low := ShiftRight(top, WIDTH - 1);
    OneStep(low);
    assert T1(low) == Poly();
  }

  lemma OneStep(c: BitString)
    requires |c| == WIDTH
    ensures Steps(1, c) == T1(c)
  {
    hide T1;
  }

  lemma {:induction false} StepsThen(n: nat, m: nat, c: BitString)
    requires |c| == WIDTH
    ensures Steps(n + m, c) == Steps(m, Steps(n, c))
  {
    hide T1;
    if n > 0 {
      StepsThen(n - 1, m, T1(c));
    }
  }

  lemma BitsOfFour(last: nat)
    requires last == 0xFF || last == 0x7F
    ensures var b := BytesBits([0xFF, 0xFF, 0xFF, last]);
            |b| == WIDTH && forall i :: 0 <= i < WIDTH ==> b[i] == (i < 31 || last == 0xFF)
  {
    hide BytesBits, ToBits;
    FourBits(0xF, 4, true, true, true, true);
    FourBits(7, 4, true, true, true, true);
    FourBits(0, 0, true, true, true, true);
    FourBits(0, 0, true, true, true, false);
    ToBitsNone();
    ByteThen(0xFF, [0xFF, 0xFF, last]);
    ByteThen(0xFF, [0xFF, last]);
    ByteThen(0xFF, [last]);
    ByteThen(last, []);
    NoByteBits();
    assert [0xFF] + [0xFF, 0xFF, last] == [0xFF, 0xFF, 0xFF, last] && [0xFF] + [0xFF, last] == [0xFF, 0xFF, last];
    assert [0xFF] + [last] == [0xFF, last] && [last] + [] == [last];
    assert ToBits(0xFF, 8) == [true, true, true, true] + ([true, true, true, true] + []);
    assert ToBits(last, 8) == [true, true, true, true] + ([true, true, true, last == 0xFF] + []);
    var e, z := ToBits(0xFF, 8), ToBits(last, 8);
    assert BytesBits([0xFF, 0xFF, 0xFF, last]) == e + (e + (e + (z + [])));
  }

  lemma ByteThen(x: byte, rest: seq<byte>)
    ensures BytesBits([x] + rest) == ToBits(x, 8) + BytesBits(rest)
  {
    hide ToBits;
    assert ([x] + rest)[1..] == rest;
  }

  lemma NoByteBits()
    ensures BytesBits([]) == []
  {
  }

  // ---- the table ----

  // One byte: the table entry of the low byte of the register XOR the data byte, XOR the register
  // shifted by a byte.
  lemma TableStep(r: BitString, x: BitString, i: BitString)
    requires |r| == WIDTH && |x| == 8 && i == Xor(r[..8], x)
    ensures Register(r, x) == Xor(Steps(8, Word(i)), ShiftRight(r, 8))
  {
    hide T1, Xor, Word, Steps, Register, ShiftRight;
    RegisterAtOnce(r, x);
    var low := Word(i);
    var top := Zeros(8) + r[8..];
    assert Xor(r, Word(x)) == Xor(low, top);
    StepsLinear(8, low, top);
    StepsShift(8, top);
    assert ShiftRight(top, 8) == ShiftRight(r, 8);
  }

  // A byte value as a 32-bit value.
  lemma WordOfByte(x: nat)
    requires x < 256
    ensures ToBits(x, WIDTH) == Word(ToBits(x, 8)) && FromBits(ToBits(x, 8)) == x
  {
    FromTo(x, 8);
    LowSmall8(x);
    ToBitsSplit(x, 8, 24);
    ShrSmall8(x);
    ToBitsZero(24);
  }

  lemma LowSmall8(x: nat)
    requires x < 256
    ensures Low(x, 8) == x
  {
    ByteBack(x);
    FromTo(x, 8);
  }

  lemma {:induction false} ShrZeroBelow(x: nat, n: nat)
    requires x < Pow2(n)
    ensures Shr(x, n) == 0
  {
    if n > 0 {
      ShrZeroBelow(x / 2, n - 1);
    }
  }

  lemma ShrSmall8(x: nat)
    requires x < 256
    ensures Shr(x, 8) == 0
  {
    assert Pow2(8) == 256;
    ShrZeroBelow(x, 8);
  }

  ghost predicate IsTable(table: seq<BitString>) {
    |table| == 256 && forall i :: 0 <= i < 256 ==> |table[i]| == WIDTH && table[i] == Steps(8, Word(ToBits(i, 8)))
  }

  // Entry i: eight shifts of i.
  method TableEntry(i: nat) returns (c: BitString)
    requires i < 256
    ensures |c| == WIDTH && c == Steps(8, Word(ToBits(i, 8)))
  {
    hide T1, Word, Poly, Xor, ShiftRight;
    c := ToBits(i, WIDTH);
    WordOfByte(i);
    for k := 0 to 8
      invariant |c| == WIDTH && Steps(8 - k, c) == Steps(8, Word(ToBits(i, 8)))
    {
      T1Is(c);
      c := if c[0] then Xor(Poly(), ShiftRight(c, 1)) else ShiftRight(c, 1);
    }
  }

  method BuildTable() returns (table: seq<BitString>)
    ensures IsTable(table)
  {
    hide T1, Word, Steps;
    table := [];
    for i := 0 to 256
      invariant |table| == i
      invariant forall j :: 0 <= j < i ==> |table[j]| == WIDTH && table[j] == Steps(8, Word(ToBits(j, 8)))
    {
      var c := TableEntry(i);
      table := table + [c];
    }
  }

  lemma T1Is(c: BitString)
    requires |c| == WIDTH
    ensures T1(c) == if c[0] then Xor(Poly(), ShiftRight(c, 1)) else ShiftRight(c, 1)
  {
  }

  // m15_crc32_update: the register after the data.
  method Update(state: BitString, data: seq<byte>) returns (crc: BitString)
    requires |state| == WIDTH
    ensures |crc| == WIDTH && crc == Register(state, BytesBits(data))
  {
    hide Register, T1, Word, BytesBits, Steps;
    var table := BuildTable();
    crc := state;
    NoBytes(state);
    for i := 0 to |data|
      invariant |crc| == WIDTH && crc == Register(state, BytesBits(data[..i]))
    {
      var index := FromBits(Xor(crc, ToBits(data[i], WIDTH))[..8]);
      ByteStep(table, state, data, crc, i);
      crc := Xor(table[index], ShiftRight(crc, 8));
    }
    assert data[..|data|] == data;
  }

  lemma OneByte(x: byte)
    ensures BytesBits([x]) == ToBits(x, 8)
  {
  }

  lemma NoBytes(r: BitString)
    requires |r| == WIDTH
    ensures Register(r, BytesBits([])) == r
  {
  }

  // The table index a data byte selects.
  lemma IndexOf(crc: BitString, x: nat)
    requires |crc| == WIDTH && x < 256
    ensures var low := Xor(crc, ToBits(x, WIDTH))[..8];
            && low == Xor(crc[..8], ToBits(x, 8)) && FromBits(low) < 256 && ToBits(FromBits(low), 8) == low
  {
    hide Xor, Word, ToBits, FromBits;
    WordOfByte(x);
    var low := Xor(crc, ToBits(x, WIDTH))[..8];
    assert low == Xor(crc[..8], ToBits(x, 8));
    assert Pow2(8) == 256;
    ToFrom(low);
  }

  lemma RegisterSnoc(state: BitString, a: seq<byte>, x: byte)
    requires |state| == WIDTH
    ensures Register(state, BytesBits(a + [x])) == Register(Register(state, BytesBits(a)), ToBits(x, 8))
  {
    hide Register, ToBits, BytesBits;
    BytesBitsAppend(a, [x]);
    OneByte(x);
    RegisterAppend(state, BytesBits(a), ToBits(x, 8));
  }

  lemma TableAt(table: seq<BitString>, i: nat)
    requires IsTable(table) && i < 256
    ensures i < |table| && |table[i]| == WIDTH && table[i] == Steps(8, Word(ToBits(i, 8)))
  {
    hide Steps, Word, ToBits;
  }

  lemma ByteStep(table: seq<BitString>, state: BitString, data: seq<byte>, crc: BitString, i: nat)
    requires IsTable(table) && |state| == |crc| == WIDTH && i < |data|
    requires crc == Register(state, BytesBits(data[..i]))
    ensures var index := FromBits(Xor(crc, ToBits(data[i], WIDTH))[..8]);
            && index < 256 && |table[index]| == WIDTH
            && Xor(table[index], ShiftRight(crc, 8)) == Register(state, BytesBits(data[..i + 1]))
  {
    hide Register, Word, Steps, Xor, ShiftRight, FromBits, ToBits, BytesBits, IsTable, T1, Poly, Pow2;
    RegisterSnoc(state, data[..i], data[i]);
    assert data[..i + 1] == data[..i] + [data[i]];
    TableByte(table, crc, data[i]);
  }

  lemma TableByte(table: seq<BitString>, crc: BitString, x: byte)
    requires IsTable(table) && |crc| == WIDTH
    ensures var index := FromBits(Xor(crc, ToBits(x, WIDTH))[..8]);
            && index < 256 && |table[index]| == WIDTH
            && Xor(table[index], ShiftRight(crc, 8)) == Register(crc, ToBits(x, 8))
  {
    hide Register, Word, Steps, Xor, ShiftRight, FromBits, ToBits, IsTable, T1, Poly, Pow2;
    var low := Xor(crc, ToBits(x, WIDTH))[..8];
    IndexOf(crc, x);
    TableAt(table, FromBits(low));
    TableStep(crc, ToBits(x, 8), low);
  }

  // m15_crc32: the CRC of one range.
  method Crc32Of(data: seq<byte>) returns (c: nat)
    ensures c == Crc32(data)
  {
    var state := Update(Ones(), data);
    c := FromBits(Xor(state, Ones()));
  }
}
