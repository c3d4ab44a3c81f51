/** The pre-tokenizer of c/tok.h: text is cut at codepoint boundaries into the pieces the cl100k
    pattern matches one after another. */
module Pretok {
  import opened Bits
  import opened ByteText

  // \p{L}, \p{N} and \s.
  datatype Classes = Classes(letter: nat -> bool, number: nat -> bool, space: nat -> bool)

  // A codepoint and how many bytes it takes.
  type Point = (nat, nat)

  function Points(t: Bytes): (pts: seq<Point>)
    ensures |pts| <= |t| && (t != [] ==> pts != [])
  {
    if t == [] then [] else [Next(t)] + Points(t[Next(t).1..])
  }

  // Where codepoint i begins.
  function Off(pts: seq<Point>, i: nat): nat
    requires i <= |pts|
  {
    if i == 0 then 0 else Off(pts, i - 1) + pts[i - 1].1
  }

  lemma {:induction false} OffShift(p: Point, pts: seq<Point>, i: nat)
    requires i <= |pts|
    ensures Off([p] + pts, i + 1) == p.1 + Off(pts, i)
  {
    if i > 0 {
      OffShift(p, pts, i - 1);
    }
  }

  lemma {:induction false} OffEnd(t: Bytes)
    ensures Off(Points(t), |Points(t)|) == |t|
  {
    if t != [] {
      var rest := t[Next(t).1..];
      OffEnd(rest);
      OffShift(Next(t), Points(rest), |Points(rest)|);
    }
  }

  lemma {:induction false} OffMono(pts: seq<Point>, i: nat, j: nat)
    requires i <= j <= |pts|
    ensures Off(pts, i) <= Off(pts, j)
    decreases j
  {
    if i < j {
      OffMono(pts, i, j - 1);
    }
  }

  lemma {:induction false} PointWidth(t: Bytes, i: nat)
    requires i < |Points(t)|
    ensures Points(t)[i].1 > 0
  {
    if i > 0 {
      PointWidth(t[Next(t).1..], i - 1);
    }
  }

  lemma OffNext(pts: seq<Point>, i: nat)
    requires i < |pts|
    ensures Off(pts, i + 1) == Off(pts, i) + pts[i].1
  {
  }

  // ---- the alternatives of the pattern ----

  predicate Newline(c: nat) {
    c == '\r' as int || c == '\n' as int
  }

  function Lower(c: nat): nat {
    if 'A' as int <= c <= 'Z' as int then c + 32 else c
  }

  predicate Is(c: nat, ch: char) {
    c == ch as int
  }

  // (?i:'s|'t|'re|'ve|'m|'ll|'d): the codepoints it matches, 0 if none.
  function Contraction(pts: seq<Point>, i: nat): (k: nat)
    requires i < |pts|
    ensures i + k <= |pts|
  {
    if !Is(pts[i].0, '\'') || i + 1 >= |pts| then 0 else
      var d := Lower(pts[i + 1].0);
      if i + 2 < |pts| && Pair(d, Lower(pts[i + 2].0)) then 3
      else if Is(d, 's') || Is(d, 't') || Is(d, 'm') || Is(d, 'd') then 2
      else 0
  }

  predicate Pair(d: nat, e: nat) {
    (Is(d, 'r') && Is(e, 'e')) || (Is(d, 'v') && Is(e, 'e')) || (Is(d, 'l') && Is(e, 'l'))
  }

  // The end of the run of f from j on.
  function Span(f: nat -> bool, pts: seq<Point>, j: nat): (r: nat)
    requires j <= |pts|
    ensures j <= r <= |pts| && (forall x :: j <= x < r ==> f(pts[x].0)) && (r < |pts| ==> !f(pts[r].0))
    decreases |pts| - j
  {
    if j < |pts| && f(pts[j].0) then Span(f, pts, j + 1) else j
  }

  // [^\r\n\p{L}\p{N}]?\p{L}+: where its letters begin, |pts| if it does not match.
  function WordStart(u: Classes, pts: seq<Point>, i: nat): (j: nat)
    requires i < |pts|
    ensures i <= j <= |pts| && (j < |pts| ==> u.letter(pts[j].0))
  {
    var c := pts[i].0;
    if u.letter(c) then i
    else if !Newline(c) && !u.number(c) && i + 1 < |pts| && u.letter(pts[i + 1].0) then i + 1
    else |pts|
  }

  predicate Other(u: Classes, c: nat) {
    !u.space(c) && !u.letter(c) && !u.number(c)
  }

  function Others(u: Classes): nat -> bool {
    (c: nat) => Other(u, c)
  }

  // ' ?[^\s\p{L}\p{N}]+[\r\n]*': where its symbols begin, |pts| if it does not match.
  function SymbolStart(u: Classes, pts: seq<Point>, i: nat): (j: nat)
    requires i < |pts|
    ensures i <= j <= |pts| && (j < |pts| ==> Other(u, pts[j].0))
  {
    if Is(pts[i].0, ' ') && i + 1 < |pts| && Other(u, pts[i + 1].0) then i + 1
    else if Other(u, pts[i].0) then i
    else |pts|
  }

  // The last newline of pts[i..r], or -1.
  function LastNewline(pts: seq<Point>, i: nat, r: nat): (x: int)
    requires i <= r <= |pts|
    ensures x == -1 || i <= x < r
    ensures x >= 0 ==> Newline(pts[x].0)
    ensures forall y :: i <= y < r && y > x ==> !Newline(pts[y].0)
  {
    if r == i then -1 else if Newline(pts[r - 1].0) then r - 1 else LastNewline(pts, i, r - 1)
  }

  // \s*[\r\n]+, \s+(?!\S) and \s+, on a run of spaces up to r.
  function SpaceEnd(pts: seq<Point>, i: nat, r: nat): (e: nat)
    requires i < r <= |pts|
    ensures i < e <= r
  {
    var last := LastNewline(pts, i, r);
    if last >= 0 then last + 1
    else if r == |pts| then r
    else if r - 1 > i then r - 1
    else i + 1
  }

  // Where the piece that begins at codepoint i ends.
  function Cut(u: Classes, pts: seq<Point>, i: nat): (e: nat)
    requires i < |pts|
    ensures i < e <= |pts|
  {
    var k := Contraction(pts, i);
    if k > 0 then i + k
    else if WordStart(u, pts, i) < |pts| then Span(u.letter, pts, WordStart(u, pts, i))
    else if u.number(pts[i].0) then
      var r := Span(u.number, pts, i);
      if r > i + 3 then i + 3 else r
    else if SymbolStart(u, pts, i) < |pts| then Span(Newline, pts, Span(Others(u), pts, SymbolStart(u, pts, i)))
    else SpaceEnd(pts, i, Span(u.space, pts, i))
  }

  // The pieces from codepoint i on.
  function PiecesFrom(u: Classes, t: Bytes, i: nat): seq<Bytes>
    requires i <= |Points(t)|
    decreases |Points(t)| - i
  {
    var pts := Points(t);
    if i == |pts| then [] else
      var e := Cut(u, pts, i);
      OffMono(pts, i, e);
      OffMono(pts, e, |pts|);
      OffEnd(t);
      [t[Off(pts, i)..Off(pts, e)]] + PiecesFrom(u, t, e)
  }

  // Pieces partition the text.
  lemma {:induction false} PiecesPartition(u: Classes, t: Bytes, i: nat)
    requires i <= |Points(t)|
    ensures Off(Points(t), i) <= |t| && Concat(PiecesFrom(u, t, i)) == t[Off(Points(t), i)..]
    ensures forall x :: 0 <= x < |PiecesFrom(u, t, i)| ==> PiecesFrom(u, t, i)[x] != []
    decreases |Points(t)| - i
  {
    hide Cut, Points, Off;
    var pts := Points(t);
    OffEnd(t);
    OffMono(pts, i, |pts|);
    if i < |pts| {
      var e := Cut(u, pts, i);
      OffMono(pts, i + 1, e);
      OffMono(pts, e, |pts|);
      PointWidth(t, i);
      OffNext(pts, i);
      PiecesPartition(u, t, e);
      assert t[Off(pts, i)..] == t[Off(pts, i)..Off(pts, e)] + t[Off(pts, e)..];
    }
  }
}
