/** The code of c/tok.h against its specification: bpe_piece merges offset and length arrays in
    place, pretok_chunk runs the pattern over decoded codepoints, and tok_encode and tok_decode
    append to an output of limited size. */
module TokenCode {
  import opened Bits
  import opened ByteText
  import opened Tokenizer
  import opened Pretok
  import Pattern
  import opened TokenStream

  // The tables tk_build_bytemap leaves.
  datatype Bytemap = Bytemap(byte2str: seq<Bytes>, cp2byte: seq<int>)

  ghost predicate IsBytemap(m: Bytemap) {
    && |m.byte2str| == 256 && |m.cp2byte| == 1024
    && (forall b: byte :: m.byte2str[b] == Symbol(b))
    && forall c :: 0 <= c < 1024 ==> m.cp2byte[c] == Back(c, 256)
  }

  // ---- symbols as offsets and lengths ----

  // The first n entries lay the symbols out one after another in s.
  ghost predicate Laid(s: Bytes, soff: seq<nat>, slen: seq<nat>, syms: seq<Bytes>) {
    && |syms| <= |soff| && |syms| <= |slen|
    && (forall i :: 0 <= i < |syms| ==> soff[i] + slen[i] <= |s| && s[soff[i]..soff[i] + slen[i]] == Str(syms[i]))
    && forall i :: 0 < i < |syms| ==> soff[i - 1] + slen[i - 1] == soff[i]
  }

  // The length of symbol i once symbols bp and bp + 1 are joined.
  function LenAfter(slen: seq<nat>, bp: nat, i: nat): nat
    requires i + 1 < |slen| && bp + 1 < |slen|
  {
    if i < bp then slen[i] else if i == bp then slen[bp] + slen[bp + 1] else slen[i + 1]
  }

  // Joins symbols bp and bp + 1, moving the ones behind them up.
  method Fuse(soff: array<nat>, slen: array<nat>, ns: nat, bp: nat)
    requires bp + 1 < ns <= soff.Length && ns <= slen.Length && soff != slen
    requires soff[bp] + slen[bp] == soff[bp + 1]
    modifies soff, slen
    ensures forall i :: 0 <= i < ns - 1 ==> soff[i] == old(soff[if i <= bp then i else i + 1])
    ensures forall i :: 0 <= i < ns - 1 ==> slen[i] == LenAfter(old(slen[..]), bp, i)
  {
    slen[bp] := soff[bp + 1] + slen[bp + 1] - soff[bp];
    for j := bp + 1 to ns - 1
      invariant forall i :: 0 <= i < ns - 1 ==> soff[i] == if bp < i < j then old(soff[i + 1]) else old(soff[i])
      invariant forall i :: 0 <= i < ns - 1 ==> slen[i] == if i == bp then old(slen[bp] + slen[bp + 1]) else if bp < i < j then old(slen[i + 1]) else old(slen[i])
      invariant forall i :: j < i < ns ==> soff[i] == old(soff[i]) && slen[i] == old(slen[i])
    {
      soff[j] := soff[j + 1];
      slen[j] := slen[j + 1];
    }
  }

  lemma FuseLaid(s: Bytes, soff: seq<nat>, slen: seq<nat>, soff2: seq<nat>, slen2: seq<nat>, syms: seq<Bytes>, bp: nat)
    requires Laid(s, soff, slen, syms) && bp + 1 < |syms| && |syms| - 1 <= |soff2| && |syms| - 1 <= |slen2|
    requires forall i :: 0 <= i < |syms| - 1 ==> soff2[i] == soff[if i <= bp then i else i + 1]
    requires forall i :: 0 <= i < |syms| - 1 ==> slen2[i] == LenAfter(slen, bp, i)
    ensures Laid(s, soff2, slen2, Fused(syms, bp))
  {
    hide Str;
    var f := Fused(syms, bp);
    assert soff[bp] + slen[bp] == soff[bp + 1];
    forall i | 0 <= i < |f|
      ensures soff2[i] + slen2[i] <= |s| && s[soff2[i]..soff2[i] + slen2[i]] == Str(f[i])
    {
      if i < bp {
        assert f[i] == syms[i] && soff2[i] == soff[i] && slen2[i] == slen[i];
      } else if i > bp {
        assert f[i] == syms[i + 1] && soff2[i] == soff[i + 1] && slen2[i] == slen[i + 1];
        assert s[soff[i + 1]..soff[i + 1] + slen[i + 1]] == Str(syms[i + 1]);
      } else {
        StrAppend(syms[bp], syms[bp + 1]);
        assert soff2[i] == soff[bp] && slen2[i] == slen[bp] + slen[bp + 1];
        assert s[soff[bp + 1]..soff[bp + 1] + slen[bp + 1]] == Str(syms[bp + 1]);
        assert s[soff[bp]..soff[bp + 1] + slen[bp + 1]] == s[soff[bp]..soff[bp + 1]] + s[soff[bp + 1]..soff[bp + 1] + slen[bp + 1]];
      }
    }
    forall i | 0 < i < |f|
      ensures soff2[i - 1] + slen2[i - 1] == soff2[i]
    {
      if i <= bp {
        assert soff[i - 1] + slen[i - 1] == soff[i];
      } else {
        assert soff[i] + slen[i] == soff[i + 1];
      }
    }
  }

  // The pair of least rank, leftmost first: -1 if none can be merged.
  method FindBest(k: Tok, s: Bytes, soff: array<nat>, slen: array<nat>, ns: nat, ghost syms: seq<Bytes>) returns (bp: int)
    requires ns == |syms| && Laid(s, soff[..], slen[..], syms)
    ensures bp == BestPair(k, syms, Pairs(syms))
  {
    hide Str, Laid, MergeKey;
    var best: nat := 0;
    bp := -1;
    var i := 0;
    while i + 1 < ns
      invariant i <= Pairs(syms) && bp == BestPair(k, syms, i)
      invariant bp >= 0 ==> best == RankAt(k, syms, bp)
      decreases ns - i
    {
      KeyOf(s, soff[..], slen[..], syms, i);
      var key := s[soff[i]..soff[i] + slen[i]] + [0] + s[soff[i + 1]..soff[i + 1] + slen[i + 1]];
      if key in k.merges {
        var rk := k.merges[key];
        if bp < 0 || rk < best {
          best, bp := rk, i;
        }
      }
      i := i + 1;
    }
  }

  lemma KeyOf(s: Bytes, soff: seq<nat>, slen: seq<nat>, syms: seq<Bytes>, i: nat)
    requires Laid(s, soff, slen, syms) && i + 1 < |syms|
    ensures |syms| <= |soff| && |syms| <= |slen| && soff[i] + slen[i] <= |s| && soff[i + 1] + slen[i + 1] <= |s|
    ensures s[soff[i]..soff[i] + slen[i]] + [0] + s[soff[i + 1]..soff[i + 1] + slen[i + 1]] == MergeKey(syms[i], syms[i + 1])
  {
    hide Str;
  }

  // The byte-level string of a piece.
  method ByteLevel(m: Bytemap, piece: Bytes) returns (s: Bytes)
    requires IsBytemap(m)
    ensures s == Str(piece)
  {
    hide Symbol;
    s := [];
    for i := 0 to |piece|
      invariant s == Str(piece[..i])
    {
      var bb := piece[i];
      StrAppend(piece[..i], [bb]);
      assert piece[..i + 1] == piece[..i] + [bb];
      StrOne(bb);
      s := s + m.byte2str[bb];
    }
    assert piece[..|piece|] == piece;
  }

  lemma StrOne(b: byte)
    ensures Str([b]) == Symbol(b)
  {
    assert [b][1..] == [];
  }

  lemma {:induction false} StrSplit(bs: Bytes, i: nat)
    requires i < |bs|
    ensures |Str(bs[..i])| < |Str(bs)| && Str(bs)[|Str(bs[..i])|..] == Symbol(bs[i]) + Str(bs[i + 1..])
  {
    hide Symbol;
    assert bs == bs[..i] + bs[i..] && bs[i..][1..] == bs[i + 1..];
    StrAppend(bs[..i], bs[i..]);
  }

  // The initial symbols: the codepoints of s, one a byte.
  method InitialSymbols(s: Bytes, ghost piece: Bytes) returns (soff: array<nat>, slen: array<nat>, ns: nat)
    requires s == Str(piece)
    ensures fresh(soff) && fresh(slen) && soff != slen && ns == |piece|
    ensures Laid(s, soff[..], slen[..], Singles(piece))
  {
    hide Str, Next, Symbol, Laid, Singles;
    soff, slen := new nat[|s| + 1], new nat[|s| + 1];
    ns := 0;
    var i := 0;
    NothingLaid(s, soff[..], slen[..]);
    assert piece[..0] == [];
    while i < |s|
      invariant ns <= |piece| && i == |Str(piece[..ns])| <= |s| && soff.Length == slen.Length == |s| + 1
      invariant Laid(s, soff[..], slen[..], Singles(piece[..ns])) && (ns > 0 ==> soff[ns - 1] + slen[ns - 1] == i)
      decreases |s| - i
    {
      StrAll(piece, ns);
      StrSplit(piece, ns);
      NextSymbol(piece[ns], Str(piece[ns + 1..]));
      var k := Next(s[i..]).1;
      ghost var o, l := soff[..], slen[..];
      soff[ns], slen[ns] := i, k;
      OneMore(s, o, l, soff[..], slen[..], piece, ns, i, k);
      ns := ns + 1;
      i := i + k;
    }
    if ns < |piece| {
      StrSplit(piece, ns);
    }
    assert piece[..|piece|] == piece;
  }

  lemma NothingLaid(s: Bytes, soff: seq<nat>, slen: seq<nat>)
    ensures Str([]) == [] && Laid(s, soff, slen, Singles([]))
  {
  }

  lemma StrAll(piece: Bytes, n: nat)
    requires n <= |piece| && |Str(piece[..n])| < |Str(piece)|
    ensures n < |piece|
  {
    assert piece[..|piece|] == piece;
  }

  lemma OneMore(s: Bytes, o: seq<nat>, l: seq<nat>, o2: seq<nat>, l2: seq<nat>, piece: Bytes, n: nat, i: nat, k: nat)
    requires n < |piece| && n < |o| == |l| && o2 == o[n := i] && l2 == l[n := k]
    requires Laid(s, o, l, Singles(piece[..n])) && (n > 0 ==> o[n - 1] + l[n - 1] == i)
    requires i == |Str(piece[..n])| && i <= |s| && s[i..] == Symbol(piece[n]) + Str(piece[n + 1..]) && k == |Symbol(piece[n])|
    ensures Laid(s, o2, l2, Singles(piece[..n + 1])) && i + k == |Str(piece[..n + 1])|
  {
    hide Symbol, Str, Laid;
    StrOne(piece[n]);
    StrAppend(piece[..n], [piece[n]]);
    SinglesSnoc(piece, n);
    assert s[i..i + k] == s[i..][..k] == Symbol(piece[n]);
    LaidSnoc(s, o, l, Singles(piece[..n]), [piece[n]], i, k);
  }

  lemma SinglesSnoc(piece: Bytes, n: nat)
    requires n < |piece|
    ensures Singles(piece[..n + 1]) == Singles(piece[..n]) + [[piece[n]]] && piece[..n + 1] == piece[..n] + [piece[n]]
  {
  }

  lemma LaidSnoc(s: Bytes, o: seq<nat>, l: seq<nat>, syms: seq<Bytes>, sym: Bytes, i: nat, k: nat)
    requires Laid(s, o, l, syms) && |syms| < |o| == |l| && (|syms| > 0 ==> o[|syms| - 1] + l[|syms| - 1] == i)
    requires i + k <= |s| && s[i..i + k] == Str(sym)
    ensures Laid(s, o[|syms| := i], l[|syms| := k], syms + [sym])
  {
    hide Str;
    var o2, l2, more := o[|syms| := i], l[|syms| := k], syms + [sym];
    forall x | 0 <= x < |more|
      ensures o2[x] + l2[x] <= |s| && s[o2[x]..o2[x] + l2[x]] == Str(more[x])
    {
      assert x < |syms| ==> more[x] == syms[x];
    }
    forall x | 0 < x < |more|
      ensures o2[x - 1] + l2[x - 1] == o2[x]
    {
      assert x < |syms| ==> o[x - 1] + l[x - 1] == o[x];
    }
  }

  // bpe_piece: appends the ids of a piece, as far as the output has room.
  method BpePiece(k: Tok, m: Bytemap, piece: Bytes, ids: seq<int>, max: nat) returns (out: seq<int>)
    requires IsBytemap(m) && |ids| <= max
    ensures out == Take(ids + PieceIds(k, piece), max)
    ensures Str(piece) in k.vocab && |ids| < max ==> out == ids + [k.vocab[Str(piece)]]
  {
    hide Str, Bpe, Laid, BestPair, IsBytemap;
    var s := ByteLevel(m, piece);
    if s in k.vocab {
      out := if |ids| < max then ids + [k.vocab[s]] else ids;
      return;
    }
    var soff, slen, ns := InitialSymbols(s, piece);
    ghost var syms := Singles(piece);
    while true
      invariant fresh(soff) && fresh(slen) && soff != slen && ns == |syms| && Laid(s, soff[..], slen[..], syms)
      invariant Bpe(k, syms) == Bpe(k, Singles(piece))
      decreases |syms|
    {
      var bp := FindBest(k, s, soff, slen, ns, syms);
      BpeStep(k, syms);
      if bp < 0 {
        break;
      }
      LaidAt(s, soff[..], slen[..], syms, bp);
      ghost var o, l := soff[..], slen[..];
      Fuse(soff, slen, ns, bp);
      FuseLaid(s, o, l, soff[..], slen[..], syms, bp);
      syms := Fused(syms, bp);
      ns := ns - 1;
    }
    out := EmitIds(k, s, soff, slen, ns, ids, max, syms);
  }

  lemma BpeStep(k: Tok, syms: seq<Bytes>)
    ensures var b := BestPair(k, syms, Pairs(syms));
            Bpe(k, syms) == if b < 0 then syms else Bpe(k, Fused(syms, b))
  {
  }

  lemma LaidAt(s: Bytes, soff: seq<nat>, slen: seq<nat>, syms: seq<Bytes>, i: nat)
    requires Laid(s, soff, slen, syms) && i + 1 < |syms|
    ensures |syms| <= |soff| && |syms| <= |slen| && soff[i] + slen[i] == soff[i + 1]
  {
  }

  method EmitIds(k: Tok, s: Bytes, soff: array<nat>, slen: array<nat>, ns: nat, ids: seq<int>, max: nat, ghost syms: seq<Bytes>)
      returns (out: seq<int>)
    requires ns == |syms| && Laid(s, soff[..], slen[..], syms) && |ids| <= max
    ensures out == Take(ids + Ids(k, syms), max)
  {
    hide Str;
    out := ids;
    assert ids + [] == ids;
    for i := 0 to ns
      invariant out == Take(ids + Ids(k, syms[..i]), max)
    {
      assert soff[..][i] == soff[i] && slen[..][i] == slen[i];
      IdsSnoc(k, syms, i);
      var sym := s[soff[i]..soff[i] + slen[i]];
      if sym in k.vocab {
        ghost var id: int := k.vocab[sym];
        TakeAppend(ids + Ids(k, syms[..i]), [id], max);
        assert ids + Ids(k, syms[..i]) + [id] == ids + (Ids(k, syms[..i]) + [id]);
        if |out| < max {
          out := out + [k.vocab[sym]];
        }
      } else {
        assert Ids(k, syms[..i]) + [] == Ids(k, syms[..i]);
      }
    }
    assert syms[..ns] == syms;
  }

  lemma {:induction false} IdsSnoc(k: Tok, syms: seq<Bytes>, i: nat)
    requires i < |syms|
    ensures Ids(k, syms[..i + 1]) == Ids(k, syms[..i]) + (if Str(syms[i]) in k.vocab then [k.vocab[Str(syms[i])] as int] else [])
    decreases i
  {
    hide Str;
    if i > 0 {
      IdsSnoc(k, syms[1..], i - 1);
      assert syms[..i + 1][1..] == syms[1..][..i] && syms[..i][1..] == syms[1..][..i - 1];
    } else {
      assert syms[..1][1..] == [];
    }
  }

  // ---- pieces ----

  method RunEnd(f: nat -> bool, pts: seq<Point>, j0: nat) returns (j: nat)
    requires j0 <= |pts|
    ensures j == Span(f, pts, j0)
  {
    j := j0;
    while j < |pts| && f(pts[j].0)
      invariant j <= |pts| && Span(f, pts, j) == Span(f, pts, j0)
    {
      j := j + 1;
    }
  }

  // Where the piece that begins at codepoint i ends: the alternatives of the pattern, in order.
  method NextEnd(u: Classes, pts: seq<Point>, i: nat) returns (e: nat)
    requires i < |pts|
    ensures e == Cut(u, pts, i)
    ensures Pattern.NewlinesAreSpaces(u) ==> e == Pattern.First(Pattern.Cl100k(u), pts, i)
  {
    hide Pattern.First, Pattern.Cl100k, Pattern.NewlinesAreSpaces;
    if Pattern.NewlinesAreSpaces(u) {
      Pattern.CutIsTheMatch(u, pts, i);
    }
    var n, c := |pts|, pts[i].0;
    if Is(c, '\'') && i + 1 < n {
      var d := Lower(pts[i + 1].0);
      if i + 2 < n {
        var d2 := Lower(pts[i + 2].0);
        if (Is(d, 'r') && Is(d2, 'e')) || (Is(d, 'v') && Is(d2, 'e')) || (Is(d, 'l') && Is(d2, 'l')) {
          return i + 3;
        }
      }
      if Is(d, 's') || Is(d, 't') || Is(d, 'm') || Is(d, 'd') {
        return i + 2;
      }
    }
    assert Contraction(pts, i) == 0;
    e := NextWord(u, pts, i);
  }

  method NextWord(u: Classes, pts: seq<Point>, i: nat) returns (e: nat)
    requires i < |pts| && Contraction(pts, i) == 0
    ensures e == Cut(u, pts, i)
  {
    hide Contraction;
    var n, c := |pts|, pts[i].0;
    var j: int := i;
    if !u.letter(c) && !Newline(c) && !u.number(c) {
      j := if i + 1 < n && u.letter(pts[i + 1].0) then i + 1 else -1;
    }
    if j >= 0 && u.letter(pts[j].0) {
      e := RunEnd(u.letter, pts, j);
      return;
    }
    assert WordStart(u, pts, i) == |pts|;
    if u.number(c) {
      e := i;
      var k := 0;
      while e < n && u.number(pts[e].0) && k < 3
        invariant e == i + k <= n && k <= 3 && Span(u.number, pts, e) == Span(u.number, pts, i)
      {
        e, k := e + 1, k + 1;
      }
      return;
    }
    e := NextSymbols(u, pts, i);
  }

  method NextSymbols(u: Classes, pts: seq<Point>, i: nat) returns (e: nat)
    requires i < |pts| && Contraction(pts, i) == 0 && WordStart(u, pts, i) == |pts| && !u.number(pts[i].0)
    ensures e == Cut(u, pts, i)
  {
    hide Contraction;
    var n, c := |pts|, pts[i].0;
    var j := i;
    if Is(c, ' ') && i + 1 < n && Other(u, pts[i + 1].0) {
      j := i + 1;
    }
    if Other(u, pts[j].0) {
      j := RunEnd(Others(u), pts, j);
      e := RunEnd(Newline, pts, j);
      return;
    }
    assert SymbolStart(u, pts, i) == |pts|;
    e := NextSpaces(u, pts, i);
  }

  method NextSpaces(u: Classes, pts: seq<Point>, i: nat) returns (e: nat)
    requires i < |pts| && Contraction(pts, i) == 0 && WordStart(u, pts, i) == |pts| && !u.number(pts[i].0)
    requires SymbolStart(u, pts, i) == |pts|
    ensures e == Cut(u, pts, i)
  {
    hide Contraction;
    var r := RunEnd(u.space, pts, i);
    if r == i {
      // The safety branch of the source, never taken: whatever the classes, a codepoint that is no
      // letter, number or symbol is a space.
      assert false;
    }
    var last: int := -1;
    for j := i to r
      invariant last == LastNewline(pts, i, j)
    {
      if Newline(pts[j].0) {
        last := j;
      }
    }
    if last >= 0 {
      return last + 1;
    }
    e := if r < |pts| then r - 1 else r;
    if e <= i {
      e := i + 1;
    }
  }

  // pretok_chunk: cuts a chunk into pieces and appends their ids.
  method PretokChunk(k: Tok, m: Bytemap, u: Classes, t: Bytes, ids: seq<int>, max: nat) returns (out: seq<int>)
    requires IsBytemap(m) && |ids| <= max
    ensures out == Take(ids + ChunkIds(k, u, t), max)
  {
    hide IsBytemap, Next, PieceIds, Cut, Take, PiecesFrom, PiecesIds, Points, Off;
    var pts, off := Decode(t);
    out := ids;
    var i := 0;
    NoPieces(k, u, t);
    while i < |pts|
      invariant i <= |pts| && |out| <= max
      invariant Take(out + PiecesIds(k, PiecesFrom(u, t, i)), max) == Take(ids + ChunkIds(k, u, t), max)
      decreases |pts| - i
    {
      var e := NextEnd(u, pts, i);
      ChunkStep(k, u, t, i, out, max);
      out := BpePiece(k, m, t[off[i]..off[e]], out, max);
      i := e;
    }
    assert out + [] == out;
    TakeOfFit(out, max);
  }

  lemma TakeOfFit(x: seq<int>, max: nat)
    requires |x| <= max
    ensures Take(x, max) == x
  {
  }

  lemma NoPieces(k: Tok, u: Classes, t: Bytes)
    ensures PiecesIds(k, PiecesFrom(u, t, |Points(t)|)) == []
    ensures ChunkIds(k, u, t) == PiecesIds(k, PiecesFrom(u, t, 0))
  {
  }

  lemma ChunkStep(k: Tok, u: Classes, t: Bytes, i: nat, out: seq<int>, max: nat)
    requires i < |Points(t)| && |out| <= max
    ensures var pts := Points(t);
            var e := Cut(u, pts, i);
            && Off(pts, i) <= Off(pts, e) <= |t|
            && Take(out + PiecesIds(k, PiecesFrom(u, t, i)), max)
                 == Take(Take(out + PieceIds(k, t[Off(pts, i)..Off(pts, e)]), max) + PiecesIds(k, PiecesFrom(u, t, e)), max)
  {
    hide Next, PieceIds, Cut, Take, PiecesFrom, PiecesIds, Points, Off;
    var pts := Points(t);
    var e := Cut(u, pts, i);
    PiecesStep(k, u, t, i);
    var one, rest := PieceIds(k, t[Off(pts, i)..Off(pts, e)]), PiecesIds(k, PiecesFrom(u, t, e));
    TakeAppend(out + one, rest, max);
    assert out + one + rest == out + (one + rest);
  }

  lemma PiecesStep(k: Tok, u: Classes, t: Bytes, i: nat)
    requires i < |Points(t)|
    ensures var pts := Points(t);
            var e := Cut(u, pts, i);
            && Off(pts, i) <= Off(pts, e) <= |t|
            && PiecesIds(k, PiecesFrom(u, t, i)) ==
                 PieceIds(k, t[Off(pts, i)..Off(pts, e)]) + PiecesIds(k, PiecesFrom(u, t, e))
  {
    hide PieceIds, Cut, Next;
    var pts := Points(t);
    var e := Cut(u, pts, i);
    OffMono(pts, i, e);
    OffMono(pts, e, |pts|);
    OffEnd(t);
    var p := t[Off(pts, i)..Off(pts, e)];
    assert ([p] + PiecesFrom(u, t, e))[1..] == PiecesFrom(u, t, e);
  }

  // The codepoints of a chunk and where each begins.
  method Decode(t: Bytes) returns (pts: seq<Point>, off: seq<nat>)
    ensures pts == Points(t) && |off| == |pts| + 1 && forall i :: 0 <= i <= |pts| ==> off[i] == Off(pts, i)
  {
    hide Next, Off;
    pts, off := [], [];
    var i := 0;
    OffNone();
    while i < |t|
      invariant i <= |t| && Points(t) == pts + Points(t[i..])
      invariant i == Off(pts, |pts|) && |off| == |pts| && forall x :: 0 <= x < |pts| ==> off[x] == Off(pts, x)
      decreases |t| - i
    {
      var r := Next(t[i..]);
      assert t[i..][r.1..] == t[i + r.1..];
      assert pts + ([r] + Points(t[i + r.1..])) == (pts + [r]) + Points(t[i + r.1..]);
      off := off + [i];
      OffPrefix(pts, r);
      pts := pts + [r];
      i := i + r.1;
    }
    off := off + [i];
  }

  lemma OffNone()
    ensures Off([], 0) == 0
  {
  }

  lemma OffPrefix(pts: seq<Point>, r: Point)
    ensures forall x :: 0 <= x <= |pts| ==> Off(pts + [r], x) == Off(pts, x)
    ensures Off(pts + [r], |pts| + 1) == Off(pts, |pts|) + r.1
  {
    forall x | 0 <= x <= |pts|
      ensures Off(pts + [r], x) == Off(pts, x)
    {
      OffPrefixAt(pts, r, x);
    }
  }

  lemma {:induction false} OffPrefixAt(pts: seq<Point>, r: Point, x: nat)
    requires x <= |pts|
    ensures Off(pts + [r], x) == Off(pts, x)
  {
    if x > 0 {
      OffPrefixAt(pts, r, x - 1);
    }
  }

  // ---- encode and decode ----

  // tok_encode: the ids of a text, as far as the output has room.
  method TokEncode(k: Tok, m: Bytemap, u: Classes, text: Bytes, max: nat) returns (out: seq<int>)
    requires IsBytemap(m)
    ensures out == Take(Encoded(k, u, text, 0), max)
    ensures Usable(k) && |text| <= max ==> |k.added| == |k.id2str| && Decoded(k, out) == text
    ensures forall x: nat :: FirstOf(k, text, x) ==>
              out == Take([k.sp[x].id] + Encoded(k, u, text[|k.sp[x].str|..], 0), max)
    ensures forall n: nat :: n <= |text| && PlainUpTo(k, text, n) ==>
              out == Take(ChunkIds(k, u, text[..n]) + Encoded(k, u, text[n..], 0), max)
  {
    hide IsBytemap, ChunkIds, Usable, Decoded, Encoded, FirstOf, PlainUpTo, Take;
    out := [];
    var i := 0;
    assert [] + Encoded(k, u, text, 0) == Encoded(k, u, text, 0);
    while i < |text|
      invariant i <= |text| && |out| <= max
      invariant Take(out + Encoded(k, u, text, i), max) == Take(Encoded(k, u, text, 0), max)
      decreases |text| - i
    {
      out, i := EncodeStep(k, m, u, text, i, out, max);
    }
    NothingEncoded(k, u, text);
    assert out + [] == out;
    TakeFits(out, max);
    TakeFits(Encoded(k, u, text, 0), max);
    Atomic(k, u, text);
    if Usable(k) && |text| <= max {
      EncodeRoundTrip(k, u, text, 0);
      assert text[0..] == text;
    }
  }

  lemma TakeFits<T>(x: seq<T>, max: nat)
    ensures |x| <= max ==> Take(x, max) == x
  {
  }

  // No added token stands before n, and one does there, if n is not the end.
  ghost predicate PlainUpTo(k: Tok, text: Bytes, n: nat) {
    n <= |text| && Plain(k, text, n) && (n < |text| ==> exists x :: Begins(k, text[n..], x))
  }

  lemma Atomic(k: Tok, u: Classes, text: Bytes)
    ensures forall x: nat :: FirstOf(k, text, x) ==>
              Encoded(k, u, text, 0) == [k.sp[x].id] + Encoded(k, u, text[|k.sp[x].str|..], 0)
    ensures forall n: nat :: n <= |text| && PlainUpTo(k, text, n) ==>
              Encoded(k, u, text, 0) == ChunkIds(k, u, text[..n]) + Encoded(k, u, text[n..], 0)
  {
    hide Encoded, ChunkIds;
    forall x: nat | FirstOf(k, text, x)
      ensures Encoded(k, u, text, 0) == [k.sp[x].id] + Encoded(k, u, text[|k.sp[x].str|..], 0)
    {
      SpecialFirst(k, u, text, x);
    }
    forall n: nat | n <= |text| && PlainUpTo(k, text, n)
      ensures Encoded(k, u, text, 0) == ChunkIds(k, u, text[..n]) + Encoded(k, u, text[n..], 0)
    {
      PlainFirst(k, u, text, n);
    }
  }

  // The chunk up to the next added token, and that token.
  method EncodeStep(k: Tok, m: Bytemap, u: Classes, text: Bytes, i: nat, out0: seq<int>, max: nat)
      returns (out: seq<int>, next: nat)
    requires IsBytemap(m) && i < |text| && |out0| <= max
    ensures i < next <= |text| && |out| <= max
    ensures Take(out + Encoded(k, u, text, next), max) == Take(out0 + Encoded(k, u, text, i), max)
  {
    hide IsBytemap, ChunkIds, Encoded, Take;
    var hit, x := FindHit(k, text, i);
    EncodedStep(k, u, text, i, out0, max);
    out := out0;
    if hit > i {
      out := PretokChunk(k, m, u, text[i..hit], out, max);
    } else {
      NoChunk(k, u, text, i, out, max);
    }
    if hit == |text| {
      NothingEncoded(k, u, text);
      assert out + [] == out;
      TakeTwice(out0 + ChunkIds(k, u, text[i..hit]), max);
      return out, |text|;
    }
    ghost var was := out;
    if |out| < max {
      out := out + [k.sp[x].id];
    }
    TakeOne(was, k.sp[x].id, max);
    next := hit + |k.sp[x].str|;
  }

  lemma TakeOne(x: seq<int>, y: int, max: nat)
    requires |x| <= max
    ensures Take(x + [y], max) == if |x| < max then x + [y] else x
  {
  }

  lemma TakeTwice<T>(x: seq<T>, max: nat)
    ensures Take(Take(x, max), max) == Take(x, max)
  {
  }

  lemma NothingEncoded(k: Tok, u: Classes, text: Bytes)
    ensures Encoded(k, u, text, |text|) == []
  {
  }

  lemma NoChunk(k: Tok, u: Classes, text: Bytes, i: nat, out: seq<int>, max: nat)
    requires i <= |text| && |out| <= max
    ensures Take(out + ChunkIds(k, u, text[i..i]), max) == out
  {
    assert text[i..i] == [] && ChunkIds(k, u, []) == [];
    assert out + [] == out;
  }

  lemma EncodedStep(k: Tok, u: Classes, text: Bytes, i: nat, out: seq<int>, max: nat)
    requires i < |text| && |out| <= max
    ensures var h := NextHit(k, text, i);
            var chunk := ChunkIds(k, u, text[i..h]);
            if h == |text| then Take(out + Encoded(k, u, text, i), max) == Take(out + chunk, max)
            else
              var s := k.sp[FirstMatch(k, text, h, 0)];
              Take(out + Encoded(k, u, text, i), max)
                == Take(Take(Take(out + chunk, max) + [s.id], max) + Encoded(k, u, text, h + |s.str|), max)
  {
    hide ChunkIds, Take, NextHit, FirstMatch;
    var h := NextHit(k, text, i);
    var chunk := ChunkIds(k, u, text[i..h]);
    assert chunk + [] == chunk;
    if h < |text| {
      var s := k.sp[FirstMatch(k, text, h, 0)];
      var rest := Encoded(k, u, text, h + |s.str|);
      assert out + (chunk + ([s.id] + rest)) == ((out + chunk) + [s.id]) + rest;
      TakeAppend(out + chunk, [s.id], max);
      TakeAppend(out + chunk + [s.id], rest, max);
    }
  }

  // The next place an added token stands, and the first in the list that does.
  method FindHit(k: Tok, text: Bytes, i: nat) returns (hit: nat, x: nat)
    requires i <= |text|
    ensures hit == NextHit(k, text, i) && (hit < |text| ==> x == FirstMatch(k, text, hit, 0))
  {
    hit, x := i, 0;
    while hit < |text|
      invariant i <= hit <= |text| && NextHit(k, text, i) == NextHit(k, text, hit)
      decreases |text| - hit
    {
      x := 0;
      while x < |k.sp| && !MatchesAt(k, text, hit, x)
        invariant x <= |k.sp| && FirstMatch(k, text, hit, x) == FirstMatch(k, text, hit, 0)
      {
        x := x + 1;
      }
      if x < |k.sp| {
        return;
      }
      hit := hit + 1;
    }
  }

  // tok_decode: the text of a list of ids, as far as the output has room.
  method TokDecode(k: Tok, m: Bytemap, ids: seq<int>, max: nat) returns (out: Bytes)
    requires IsBytemap(m) && |k.added| == |k.id2str|
    ensures out == Take(Decoded(k, ids), max)
  {
    hide IsBytemap, Raw, Take, Decoded;
    out := [];
    assert ids[0..] == ids && [] + Decoded(k, ids) == Decoded(k, ids);
    for i := 0 to |ids|
      invariant |out| <= max && Take(out + Decoded(k, ids[i..]), max) == Take(Decoded(k, ids), max)
    {
      var id := ids[i];
      DecodedStep(k, ids, i, out, max);
      TakeFits(out, max);
      ghost var one := DecodeOne(k, id);
      if id < 0 || id >= |k.id2str| || k.id2str[id].None? {
        assert out + one == out;
        continue;
      }
      var s := k.id2str[id].value;
      if k.added[id] {
        out := CopyOut(s, out, max);
        continue;
      }
      out := RawOut(m, s, out, max);
    }
    DecodedEnd(k, ids, out);
    TakeFits(out, max);
  }

  lemma DecodedStep(k: Tok, ids: seq<int>, i: nat, out: Bytes, max: nat)
    requires i < |ids| && |k.added| == |k.id2str|
    ensures Take(out + Decoded(k, ids[i..]), max)
         == Take(Take(out + DecodeOne(k, ids[i]), max) + Decoded(k, ids[i + 1..]), max)
  {
    hide Take;
    assert ids[i..][1..] == ids[i + 1..] && ids[i..][0] == ids[i];
    var one, rest := DecodeOne(k, ids[i]), Decoded(k, ids[i + 1..]);
    assert out + (one + rest) == (out + one) + rest;
    TakeAppend(out + one, rest, max);
  }

  lemma DecodedEnd(k: Tok, ids: seq<int>, out: Bytes)
    requires |k.added| == |k.id2str|
    ensures out + Decoded(k, ids[|ids|..]) == out
  {
    assert ids[|ids|..] == [] && out + [] == out;
  }

  method CopyOut(s: Bytes, out0: Bytes, max: nat) returns (out: Bytes)
    requires |out0| <= max
    ensures out == Take(out0 + s, max)
  {
    out := out0;
    var j := 0;
    assert s[0..] == s;
    while j < |s| && |out| < max
      invariant j <= |s| && |out| <= max && Take(out + s[j..], max) == Take(out0 + s, max)
    {
      assert out + s[j..] == (out + [s[j]]) + s[j + 1..];
      out := out + [s[j]];
      j := j + 1;
    }
    if j == |s| {
      assert out + s[j..] == out;
    } else {
      assert Take(out + s[j..], max) == out;
    }
  }

  method RawOut(m: Bytemap, s: Bytes, out0: Bytes, max: nat) returns (out: Bytes)
    requires IsBytemap(m) && |out0| <= max
    ensures out == Take(out0 + Raw(s), max)
  {
    hide Next, Raw, OneRaw, Take, IsBytemap;
    out := out0;
    var j := 0;
    assert s[0..] == s;
    while j < |s|
      invariant j <= |s| && |out| <= max && Take(out + Raw(s[j..]), max) == Take(out0 + Raw(s), max)
      decreases |s| - j
    {
      var r := Next(s[j..]);
      assert s[j..][r.1..] == s[j + r.1..];
      var c := r.0;
      RawStep(s[j..], out, max);
      OneRawTake(m, out, c, max);
      j := j + r.1;
      if c < 1024 && m.cp2byte[c] >= 0 && |out| < max {
        out := out + [m.cp2byte[c]];
      }
    }
    RawEnd(out, max);
    assert s[|s|..] == [];
  }

  // What one codepoint of a byte-level string decodes to.
  function OneRaw(c: nat): Bytes {
    var b := Back(c, 256);
    if b >= 0 then [b] else []
  }

  lemma RawStep(s: Bytes, out: Bytes, max: nat)
    requires s != []
    ensures Take(out + Raw(s), max) == Take(Take(out + OneRaw(Next(s).0), max) + Raw(s[Next(s).1..]), max)
  {
    hide Next, Take;
    var one, rest := OneRaw(Next(s).0), Raw(s[Next(s).1..]);
    assert out + (one + rest) == (out + one) + rest;
    TakeAppend(out + one, rest, max);
  }

  lemma OneRawTake(m: Bytemap, out: Bytes, c: nat, max: nat)
    requires IsBytemap(m) && |out| <= max
    ensures |m.cp2byte| == 1024
    ensures c < 1024 && m.cp2byte[c] >= 0 ==> m.cp2byte[c] < 256
    ensures Take(out + OneRaw(c), max)
         == if c < 1024 && m.cp2byte[c] >= 0 && |out| < max then out + [m.cp2byte[c]] else out
  {
    if c >= 512 {
      BackUnknown(c, 256);
    }
    assert out + [] == out;
  }

  lemma RawEnd(out: Bytes, max: nat)
    requires |out| <= max
    ensures Take(out + Raw([]), max) == out
  {
    assert out + [] == out;
  }

  // Encoding into enough room and decoding into enough room is the identity.
  method RoundTrip(k: Tok, u: Classes, text: Bytes) returns (back: Bytes)
    requires Usable(k)
    ensures back == text
  {
    hide Usable, Encoded;
    var byte2cp, byte2str, cp2byte := BuildBytemap();
    var m := Bytemap(byte2str, cp2byte);
    Shaped(k);
    var ids := TokEncode(k, m, u, text, |text|);
    back := TokDecode(k, m, ids, |text|);
  }
}
