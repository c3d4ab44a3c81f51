/** UTF-8 coding and the byte-to-codepoint map of c/tok.h: every byte becomes a printable codepoint,
    and the codepoint's UTF-8 form is the byte's symbol in the vocabulary. */
module ByteText {
  import opened Bits

  type Bytes = seq<byte>

  // ---- UTF-8 ----

  // u8_put.
  function Put(cp: nat): (o: Bytes)
    requires cp < 0x20_0000
    ensures 1 <= |o| <= 4
  {
    if cp < 0x80 then [cp]
    else if cp < 0x800 then [0xC0 + cp / 0x40, 0x80 + cp % 0x40]
    else if cp < 0x1_0000 then [0xE0 + cp / 0x1000, 0x80 + cp / 0x40 % 0x40, 0x80 + cp % 0x40]
    else [0xF0 + cp / 0x4_0000, 0x80 + cp / 0x1000 % 0x40, 0x80 + cp / 0x40 % 0x40, 0x80 + cp % 0x40]
  }

  // u8_next: the codepoint at the front of t, and how many bytes it takes; a byte that begins no
  // complete sequence stands for itself.
  function Next(t: Bytes): (r: (nat, nat))
    requires t != []
    ensures 1 <= r.1 <= |t|
  {
    var c := t[0] as int;
    if c < 0x80 then (c, 1)
    else if c / 0x20 == 0x6 && 1 < |t| then (c % 0x20 * 0x40 + t[1] as int % 0x40, 2)
    else if c / 0x10 == 0xE && 2 < |t| then
      (c % 0x10 * 0x1000 + t[1] as int % 0x40 * 0x40 + t[2] as int % 0x40, 3)
    else if c / 0x8 == 0x1E && 3 < |t| then
      (c % 0x8 * 0x4_0000 + t[1] as int % 0x40 * 0x1000 + t[2] as int % 0x40 * 0x40 + t[3] as int % 0x40, 4)
    else (c, 1)
  }

  // Reading back what was written, whatever follows it.
  lemma NextPut(cp: nat, rest: Bytes)
    requires cp < 0x20_0000
    ensures Next(Put(cp) + rest) == (cp, |Put(cp)|)
  {
    var t := Put(cp) + rest;
    if cp < 0x800 {
      Digits1(cp);
    } else if cp < 0x1_0000 {
      Digits2(cp);
      NextThree(t, cp / 0x1000, cp / 0x40 % 0x40, cp % 0x40);
    } else {
      Digits2(cp);
      Digits3(cp);
      NextFour(t, cp / 0x4_0000, cp / 0x1000 % 0x40, cp / 0x40 % 0x40, cp % 0x40);
    }
  }

  // A byte that begins no complete sequence stands for itself.
  lemma NextStray(t: Bytes)
    requires t != []
    requires var c := t[0];
             || 0x80 <= c < 0xC0 || c >= 0xF8
             || (0xC0 <= c < 0xE0 && |t| < 2) || (0xE0 <= c < 0xF0 && |t| < 3) || (0xF0 <= c < 0xF8 && |t| < 4)
    ensures Next(t) == (t[0] as int, 1)
  {
  }

  // The base-64 digits of a codepoint.
  lemma Digits1(cp: nat)
    ensures cp == cp / 0x40 * 0x40 + cp % 0x40
  {
  }

  lemma Digits2(cp: nat)
    ensures cp == cp / 0x1000 * 0x1000 + cp / 0x40 % 0x40 * 0x40 + cp % 0x40
  {
    assert cp / 0x1000 == cp / 0x40 / 0x40;
  }

  lemma Digits3(cp: nat)
    ensures cp / 0x1000 == cp / 0x4_0000 * 0x40 + cp / 0x1000 % 0x40
  {
    assert cp / 0x4_0000 == cp / 0x1000 / 0x40;
  }

  lemma NextThree(t: Bytes, a: nat, b: nat, c: nat)
    requires a < 0x10 && b < 0x40 && c < 0x40
    requires |t| > 2 && t[0] == 0xE0 + a && t[1] == 0x80 + b && t[2] == 0x80 + c
    ensures Next(t) == (a * 0x1000 + b * 0x40 + c, 3)
  {
  }

  lemma NextFour(t: Bytes, a: nat, b: nat, c: nat, d: nat)
    requires a < 0x8 && b < 0x40 && c < 0x40 && d < 0x40
    requires |t| > 3 && t[0] == 0xF0 + a && t[1] == 0x80 + b && t[2] == 0x80 + c && t[3] == 0x80 + d
    ensures Next(t) == (a * 0x4_0000 + b * 0x1000 + c * 0x40 + d, 4)
  {
  }

  // ---- the byte map ----

  // Bytes that are their own codepoint.
  predicate Direct(b: nat) {
    33 <= b <= 126 || 161 <= b <= 172 || 174 <= b <= 255
  }

  // How many bytes below b are not.
  function Indirect(b: nat): (n: nat)
    ensures n <= b
  {
    if b == 0 then 0 else Indirect(b - 1) + if Direct(b - 1) then 0 else 1
  }

  function Cp(b: nat): (c: nat)
    requires b < 256
    ensures c < 512 && (c < 256 <==> Direct(b))
  {
    if Direct(b) then b else 256 + Indirect(b)
  }

  // Printable Latin-1 stands for itself; the other bytes follow from 256 on, in their order.
  lemma CpIs(b: nat)
    requires b < 256
    ensures Cp(b) == if b < 33 then 256 + b
                     else if b < 127 then b
                     else if b < 161 then 162 + b
                     else if b == 173 then 323
                     else b
  {
    IndirectIs(b);
  }

  lemma {:induction false} IndirectIs(b: nat)
    requires b <= 256
    ensures Indirect(b) == if b < 33 then b
                           else if b < 127 then 33
                           else if b < 161 then b - 94
                           else if b <= 173 then 67
                           else 68
  {
    if b > 0 {
      IndirectIs(b - 1);
    }
  }

  lemma {:induction false} IndirectMono(a: nat, b: nat)
    requires a <= b
    ensures Indirect(a) <= Indirect(b)
    decreases b
  {
    if a < b {
      IndirectMono(a, b - 1);
    }
  }

  lemma CpInjective(a: nat, b: nat)
    requires a < b < 256
    ensures Cp(a) != Cp(b)
  {
    if !Direct(a) && !Direct(b) {
      IndirectMono(a + 1, b);
    }
  }

  // The byte below n whose codepoint is c, or -1.
  function Back(c: nat, n: nat): (b: int)
    requires n <= 256
    ensures -1 <= b < n && (b >= 0 ==> Cp(b) == c)
  {
    if n == 0 then -1 else if Cp(n - 1) == c then n - 1 else Back(c, n - 1)
  }

  lemma {:induction false} BackCp(b: nat, n: nat)
    requires b < n <= 256
    ensures Back(Cp(b), n) == b
    decreases n
  {
    if b < n - 1 {
      CpInjective(b, n - 1);
      BackCp(b, n - 1);
    }
  }

  lemma {:induction false} BackUnknown(c: nat, n: nat)
    requires n <= 256 && c >= 512
    ensures Back(c, n) == -1
  {
    if n > 0 {
      BackUnknown(c, n - 1);
    }
  }

  // The symbol of byte b.
  function Symbol(b: byte): (s: Bytes)
    ensures 1 <= |s| <= 2
  {
    Put(Cp(b))
  }

  // tk_build_bytemap.
  method BuildBytemap() returns (byte2cp: seq<nat>, byte2str: seq<Bytes>, cp2byte: seq<int>)
    ensures |byte2cp| == |byte2str| == 256 && |cp2byte| == 1024
    ensures forall b :: 0 <= b < 256 ==> byte2cp[b] == Cp(b) && byte2str[b] == Symbol(b)
    ensures forall c :: 0 <= c < 1024 ==> cp2byte[c] == Back(c, 256)
  {
    hide Put;
    byte2cp, byte2str := [], [];
    cp2byte := seq(1024, _ => -1);
    var isdir := MarkDirect();
    var n: nat := 0;
    for b := 0 to 256
      invariant n == Indirect(b) && |byte2cp| == |byte2str| == b && |cp2byte| == 1024
      invariant forall x :: 0 <= x < b ==> byte2cp[x] == Cp(x) && byte2str[x] == Symbol(x)
      invariant forall c :: 0 <= c < 1024 ==> cp2byte[c] == Back(c, b)
    {
      var cp := if isdir[b] then b else 256 + n;
      assert cp == Cp(b);
      if !isdir[b] {
        n := n + 1;
      }
      byte2cp := byte2cp + [cp];
      byte2str := byte2str + [Put(cp)];
      if cp < 1024 {
        cp2byte := cp2byte[cp := b];
      }
    }
  }

  method MarkDirect() returns (isdir: seq<bool>)
    ensures |isdir| == 256 && forall b :: 0 <= b < 256 ==> isdir[b] == Direct(b)
  {
    isdir := seq(256, _ => false);
    isdir := Mark(isdir, 33, 126);
    isdir := Mark(isdir, 161, 172);
    isdir := Mark(isdir, 174, 255);
  }

  method Mark(isdir: seq<bool>, lo: nat, hi: nat) returns (r: seq<bool>)
    requires lo <= hi < |isdir|
    ensures |r| == |isdir| && forall b :: 0 <= b < |r| ==> r[b] == (lo <= b <= hi || isdir[b])
  {
    r := isdir;
    for b := lo to hi + 1
      invariant |r| == |isdir| && forall x :: 0 <= x < |r| ==> r[x] == (lo <= x < b || isdir[x])
    {
      r := r[b := true];
    }
  }

  // ---- strings of symbols ----

  // The byte-level string of raw bytes.
  function Str(bs: Bytes): (s: Bytes)
    ensures |bs| <= |s| <= 2 * |bs|
  {
    if bs == [] then [] else Symbol(bs[0]) + Str(bs[1..])
  }

  // The bytes a byte-level string stands for; other codepoints stand for nothing.
  function Raw(s: Bytes): Bytes {
    if s == [] then [] else
      var b := Back(Next(s).0, 256);
      (if b >= 0 then [b] else []) + Raw(s[Next(s).1..])
  }

  lemma {:induction false} StrAppend(a: Bytes, b: Bytes)
    ensures Str(a + b) == Str(a) + Str(b)
  {
    hide Symbol, Str;
    if a == [] {
      StrEmpty();
      assert a + b == b;
    } else {
      var rest := a[1..];
      StrAppend(rest, b);
      StrCons(a);
      StrCons(a + b);
      assert (a + b)[1..] == rest + b && (a + b)[0] == a[0];
      Associate(Symbol(a[0]), Str(rest), Str(b));
    }
  }

  lemma StrEmpty()
    ensures Str([]) == []
  {
  }

  lemma StrCons(a: Bytes)
    requires a != []
    ensures Str(a) == Symbol(a[0]) + Str(a[1..])
  {
    hide Symbol;
  }

  lemma Associate(a: Bytes, b: Bytes, c: Bytes)
    ensures a + (b + c) == (a + b) + c
  {
  }

  // The next codepoint of a byte-level string is that of its next byte.
  lemma NextSymbol(b: byte, rest: Bytes)
    ensures var s := Symbol(b) + rest;
            Next(s) == (Cp(b), |Symbol(b)|) && s[Next(s).1..] == rest && Back(Next(s).0, 256) == b
  {
    NextPut(Cp(b), rest);
    BackCp(b, 256);
  }

  lemma {:induction false} RawStr(bs: Bytes)
    ensures Raw(Str(bs)) == bs
  {
    if bs != [] {
      NextSymbol(bs[0], Str(bs[1..]));
      RawStr(bs[1..]);
      assert bs == [bs[0]] + bs[1..];
    }
  }
}
