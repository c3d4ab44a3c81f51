/** The cl100k pattern of c/tok.h as a regular expression, matched by backtracking: alternatives from
    left to right, repetitions as long as they can be. The pre-tokenizer, written as a sequence of
    tests, ends each piece where the first match of the pattern ends. */
module Pattern {
  import opened Pretok
  import opened ByteText

  type Class = nat -> bool

  datatype Regex =
    | Empty
    | One(f: Class)
    | Star(f: Class)
    | NotAhead(f: Class)
    | Seq(a: Regex, b: Regex)
    | Alt(a: Regex, b: Regex)

  // ---- what a regular expression matches ----

  // Where the matches that begin at codepoint i end, in the order backtracking finds them.
  function Ends(x: Regex, pts: seq<Point>, i: nat): (r: seq<nat>)
    requires i <= |pts|
    ensures forall k :: 0 <= k < |r| ==> i <= r[k] <= |pts|
    decreases x, 0
  {
    match x
    case Empty => [i]
    case One(f) => if i < |pts| && f(pts[i].0) then [i + 1] else []
    case Star(f) => Runs(f, pts, i)
    case NotAhead(f) => if i < |pts| && f(pts[i].0) then [] else [i]
    case Seq(a, b) => AfterAll(Ends(a, pts, i), b, pts, i)
    case Alt(a, b) => Ends(a, pts, i) + Ends(b, pts, i)
  }

  // Longer repetitions come first.
  function Runs(f: Class, pts: seq<Point>, i: nat): (r: seq<nat>)
    requires i <= |pts|
    ensures r != [] && forall k :: 0 <= k < |r| ==> i <= r[k] <= |pts|
    decreases |pts| - i
  {
    (if i < |pts| && f(pts[i].0) then Runs(f, pts, i + 1) else []) + [i]
  }

  // The matches of b behind each of the given ends.
  function AfterAll(es: seq<nat>, b: Regex, pts: seq<Point>, i: nat): (r: seq<nat>)
    requires i <= |pts| && forall k :: 0 <= k < |es| ==> i <= es[k] <= |pts|
    ensures forall k :: 0 <= k < |r| ==> i <= r[k] <= |pts|
    decreases b, |es|
  {
    if es == [] then [] else
      var n := |es| - 1;
      AfterAll(es[..n], b, pts, i) + Ends(b, pts, es[n])
  }

  // The end of the match backtracking settles on, -1 if there is none.
  function First(x: Regex, pts: seq<Point>, i: nat): (e: int)
    requires i <= |pts|
    ensures e == -1 || i <= e <= |pts|
  {
    var r := Ends(x, pts, i);
    if r == [] then -1 else r[0]
  }

  // ---- the pattern ----

  function Chr(ch: char): Class {
    (c: nat) => Is(c, ch)
  }

  // A letter under (?i), folded as the source folds.
  function Fold(ch: char): Class {
    (c: nat) => Is(Lower(c), ch)
  }

  // [^\r\n\p{L}\p{N}]
  function Lead(u: Classes): Class {
    (c: nat) => !Newline(c) && !u.letter(c) && !u.number(c)
  }

  // \S
  function NonSpaces(u: Classes): Class {
    (c: nat) => !u.space(c)
  }

  function Opt(x: Regex): Regex {
    Alt(x, Empty)
  }

  function Plus(f: Class): Regex {
    Seq(One(f), Star(f))
  }

  function Suffix1(ch: char): Regex {
    Seq(One(Chr('\'')), One(Fold(ch)))
  }

  function Suffix2(ch: char, dh: char): Regex {
    Seq(One(Chr('\'')), Seq(One(Fold(ch)), One(Fold(dh))))
  }

  // (?i:'s|'t|'re|'ve|'m|'ll|'d)
  function Suffixes(): Regex {
    Alt(Suffix1('s'), Alt(Suffix1('t'), Alt(Suffix2('r', 'e'), Alt(Suffix2('v', 'e'),
    Alt(Suffix1('m'), Alt(Suffix2('l', 'l'), Suffix1('d')))))))
  }

  // [^\r\n\p{L}\p{N}]?\p{L}+
  function Words(u: Classes): Regex {
    Seq(Opt(One(Lead(u))), Plus(u.letter))
  }

  // \p{N}{1,3}
  function Numbers(u: Classes): Regex {
    Seq(One(u.number), Opt(Seq(One(u.number), Opt(One(u.number)))))
  }

  // ' ?[^\s\p{L}\p{N}]+[\r\n]*'
  function Symbols(u: Classes): Regex {
    Seq(Opt(One(Chr(' '))), Seq(One(Others(u)), Seq(Star(Others(u)), Star(Newline))))
  }

  // \s*[\r\n]+
  function Lines(u: Classes): Regex {
    Seq(Star(u.space), Plus(Newline))
  }

  // \s+(?!\S)
  function Trailing(u: Classes): Regex {
    Seq(One(u.space), Seq(Star(u.space), NotAhead(NonSpaces(u))))
  }

  function Cl100k(u: Classes): Regex {
    Alt(Suffixes(), Alt(Words(u), Alt(Numbers(u), Alt(Symbols(u), Alt(Lines(u), Alt(Trailing(u), Plus(u.space)))))))
  }

  // Carriage return and line feed are spaces, as in Unicode.
  ghost predicate NewlinesAreSpaces(u: Classes) {
    forall c :: Newline(c) ==> u.space(c)
  }

  // ---- how sequences match ----

  lemma AfterOne(e: nat, b: Regex, pts: seq<Point>, i: nat)
    requires i <= e <= |pts|
    ensures AfterAll([e], b, pts, i) == Ends(b, pts, e)
  {
    hide Ends;
    assert [e][..0] == [];
  }

  lemma AfterTwo(d: nat, e: nat, b: Regex, pts: seq<Point>, i: nat)
    requires i <= d <= |pts| && i <= e <= |pts|
    ensures AfterAll([d, e], b, pts, i) == Ends(b, pts, d) + Ends(b, pts, e)
  {
    hide Ends;
    assert [d, e][..1] == [d];
    AfterOne(d, b, pts, i);
  }

  lemma OneThen(f: Class, b: Regex, pts: seq<Point>, i: nat)
    requires i <= |pts|
    ensures First(Seq(One(f), b), pts, i) == if i < |pts| && f(pts[i].0) then First(b, pts, i + 1) else -1
  {
    hide Ends, AfterAll;
    OneEnds(f, b, pts, i);
    if i < |pts| && f(pts[i].0) {
      AfterOne(i + 1, b, pts, i);
    }
  }

  lemma OneEnds(f: Class, b: Regex, pts: seq<Point>, i: nat)
    requires i <= |pts|
    ensures i < |pts| && f(pts[i].0) ==> Ends(Seq(One(f), b), pts, i) == AfterAll([i + 1], b, pts, i)
    ensures !(i < |pts| && f(pts[i].0)) ==> Ends(Seq(One(f), b), pts, i) == []
  {
    var es := Ends(One(f), pts, i);
    assert es == if i < |pts| && f(pts[i].0) then [i + 1] else [];
  }

  lemma OptEnds(f: Class, b: Regex, pts: seq<Point>, i: nat)
    requires i <= |pts|
    ensures Ends(Seq(Opt(One(f)), b), pts, i)
         == AfterAll(if i < |pts| && f(pts[i].0) then [i + 1, i] else [i], b, pts, i)
  {
    var es := Ends(Opt(One(f)), pts, i);
    assert es == Ends(One(f), pts, i) + Ends(Empty, pts, i);
    assert es == if i < |pts| && f(pts[i].0) then [i + 1, i] else [i];
  }

  lemma OptThen(f: Class, b: Regex, pts: seq<Point>, i: nat)
    requires i <= |pts|
    ensures First(Seq(Opt(One(f)), b), pts, i)
         == if i < |pts| && f(pts[i].0) && First(b, pts, i + 1) >= 0 then First(b, pts, i + 1) else First(b, pts, i)
  {
    hide Ends, AfterAll;
    OptEnds(f, b, pts, i);
    if i < |pts| && f(pts[i].0) {
      AfterTwo(i + 1, i, b, pts, i);
    } else {
      AfterOne(i, b, pts, i);
    }
  }

  lemma StarStep(f: Class, b: Regex, pts: seq<Point>, i: nat)
    requires i <= |pts|
    ensures First(Seq(Star(f), b), pts, i)
         == if i < |pts| && f(pts[i].0) && First(Seq(Star(f), b), pts, i + 1) >= 0
            then First(Seq(Star(f), b), pts, i + 1) else First(b, pts, i)
  {
    hide Ends;
    RunsThen(f, b, pts, i);
  }

  // A repetition gives back as little as b needs.
  lemma {:induction false} StarThen(f: Class, b: Regex, pts: seq<Point>, i: nat, e: nat)
    requires i <= |pts| && i <= e <= Span(f, pts, i) && First(b, pts, e) >= 0
    requires forall y :: e < y <= Span(f, pts, i) ==> First(b, pts, y) < 0
    ensures First(Seq(Star(f), b), pts, i) == First(b, pts, e)
    decreases |pts| - i
  {
    hide Ends, First;
    StarStep(f, b, pts, i);
    if e > i {
      assert Span(f, pts, i) == Span(f, pts, i + 1);
      StarThen(f, b, pts, i + 1, e);
    } else if i < Span(f, pts, i) {
      assert Span(f, pts, i) == Span(f, pts, i + 1);
      StarThenNone(f, b, pts, i + 1);
    }
  }

  lemma {:induction false} StarThenNone(f: Class, b: Regex, pts: seq<Point>, i: nat)
    requires i <= |pts| && forall y :: i <= y <= Span(f, pts, i) ==> First(b, pts, y) < 0
    ensures First(Seq(Star(f), b), pts, i) == -1
    decreases |pts| - i
  {
    hide Ends, First;
    StarStep(f, b, pts, i);
    if i < Span(f, pts, i) {
      assert Span(f, pts, i) == Span(f, pts, i + 1);
      StarThenNone(f, b, pts, i + 1);
    }
  }

  lemma RunsThen(f: Class, b: Regex, pts: seq<Point>, i: nat)
    requires i <= |pts|
    ensures Ends(Seq(Star(f), b), pts, i)
         == (if i < |pts| && f(pts[i].0) then Ends(Seq(Star(f), b), pts, i + 1) else []) + Ends(b, pts, i)
  {
    if i < |pts| && f(pts[i].0) {
      var es := Runs(f, pts, i + 1);
      assert Runs(f, pts, i)[..|es|] == es;
      AfterAllBase(es, b, pts, i, i + 1);
    } else {
      AfterOne(i, b, pts, i);
    }
  }

  lemma {:induction false} AfterAllBase(es: seq<nat>, b: Regex, pts: seq<Point>, i: nat, j: nat)
    requires i <= j <= |pts| && forall k :: 0 <= k < |es| ==> j <= es[k] <= |pts|
    ensures AfterAll(es, b, pts, i) == AfterAll(es, b, pts, j)
    decreases |es|
  {
    if es != [] {
      AfterAllBase(es[..|es| - 1], b, pts, i, j);
    }
  }

  lemma {:induction false} StarFirst(f: Class, pts: seq<Point>, i: nat)
    requires i <= |pts|
    ensures First(Star(f), pts, i) == Span(f, pts, i)
    decreases |pts| - i
  {
    if i < |pts| && f(pts[i].0) {
      StarFirst(f, pts, i + 1);
    }
  }

  lemma PlusFirst(f: Class, pts: seq<Point>, i: nat)
    requires i <= |pts|
    ensures First(Plus(f), pts, i) == if i < |pts| && f(pts[i].0) then Span(f, pts, i) else -1
  {
    OneThen(f, Star(f), pts, i);
    if i < |pts| {
      StarFirst(f, pts, i + 1);
    }
  }

  // ---- the alternatives ----

  lemma Suffix1First(ch: char, pts: seq<Point>, i: nat)
    requires i < |pts|
    ensures First(Suffix1(ch), pts, i)
         == if Is(pts[i].0, '\'') && i + 1 < |pts| && Is(Lower(pts[i + 1].0), ch) then i + 2 else -1
  {
    OneThen(Chr('\''), One(Fold(ch)), pts, i);
  }

  lemma Suffix2First(ch: char, dh: char, pts: seq<Point>, i: nat)
    requires i < |pts|
    ensures First(Suffix2(ch, dh), pts, i)
         == if Is(pts[i].0, '\'') && i + 2 < |pts| && Is(Lower(pts[i + 1].0), ch) && Is(Lower(pts[i + 2].0), dh)
            then i + 3 else -1
  {
    hide First;
    OneThen(Chr('\''), Seq(One(Fold(ch)), One(Fold(dh))), pts, i);
    if i + 1 <= |pts| {
      OneThen(Fold(ch), One(Fold(dh)), pts, i + 1);
    }
    if i + 2 <= |pts| {
      OneFirst(Fold(dh), pts, i + 2);
    }
  }

  lemma OneFirst(f: Class, pts: seq<Point>, i: nat)
    requires i <= |pts|
    ensures First(One(f), pts, i) == if i < |pts| && f(pts[i].0) then i + 1 else -1
  {
  }

  lemma AltFirst(a: Regex, b: Regex, pts: seq<Point>, i: nat)
    requires i <= |pts|
    ensures First(Alt(a, b), pts, i) == if First(a, pts, i) >= 0 then First(a, pts, i) else First(b, pts, i)
  {
  }

  lemma SuffixesFirst(pts: seq<Point>, i: nat)
    requires i < |pts|
    ensures First(Suffixes(), pts, i) == if Contraction(pts, i) > 0 then i + Contraction(pts, i) else -1
  {
    hide First, Suffix1, Suffix2;
    var m := Alt(Suffix1('m'), Alt(Suffix2('l', 'l'), Suffix1('d')));
    var v := Alt(Suffix2('v', 'e'), m);
    var r := Alt(Suffix2('r', 'e'), v);
    AltFirst(Suffix1('s'), Alt(Suffix1('t'), r), pts, i);
    AltFirst(Suffix1('t'), r, pts, i);
    AltFirst(Suffix2('r', 'e'), v, pts, i);
    AltFirst(Suffix2('v', 'e'), m, pts, i);
    AltFirst(Suffix1('m'), Alt(Suffix2('l', 'l'), Suffix1('d')), pts, i);
    AltFirst(Suffix2('l', 'l'), Suffix1('d'), pts, i);
    Suffix1First('s', pts, i);
    Suffix1First('t', pts, i);
    Suffix1First('m', pts, i);
    Suffix1First('d', pts, i);
    Suffix2First('r', 'e', pts, i);
    Suffix2First('v', 'e', pts, i);
    Suffix2First('l', 'l', pts, i);
  }

  lemma WordsFirst(u: Classes, pts: seq<Point>, i: nat)
    requires i < |pts|
    ensures First(Words(u), pts, i) == var j := WordStart(u, pts, i); if j < |pts| then Span(u.letter, pts, j) else -1
  {
    hide First;
    OptThen(Lead(u), Plus(u.letter), pts, i);
    PlusFirst(u.letter, pts, i);
    PlusFirst(u.letter, pts, i + 1);
  }

  lemma NumbersFirst(u: Classes, pts: seq<Point>, i: nat)
    requires i < |pts|
    ensures First(Numbers(u), pts, i)
         == if u.number(pts[i].0) then var r := Span(u.number, pts, i); if r > i + 3 then i + 3 else r else -1
  {
    var n := One(u.number);
    OneThen(u.number, Opt(Seq(n, Opt(n))), pts, i);
    OneThen(u.number, Opt(n), pts, i + 1);
    AltFirst(Seq(n, Opt(n)), Empty, pts, i + 1);
    if i + 2 <= |pts| {
      AltFirst(n, Empty, pts, i + 2);
    }
  }

  lemma SymbolsFirst(u: Classes, pts: seq<Point>, i: nat)
    requires i < |pts|
    ensures First(Symbols(u), pts, i)
         == var j := SymbolStart(u, pts, i); if j < |pts| then Span(Newline, pts, Span(Others(u), pts, j)) else -1
  {
    hide First;
    OptThen(Chr(' '), Seq(One(Others(u)), Seq(Star(Others(u)), Star(Newline))), pts, i);
    SymbolRun(u, pts, i);
    SymbolRun(u, pts, i + 1);
  }

  lemma SymbolRun(u: Classes, pts: seq<Point>, j: nat)
    requires j <= |pts|
    ensures First(Seq(One(Others(u)), Seq(Star(Others(u)), Star(Newline))), pts, j)
         == if j < |pts| && Other(u, pts[j].0) then Span(Newline, pts, Span(Others(u), pts, j)) else -1
  {
    hide First;
    OneThen(Others(u), Seq(Star(Others(u)), Star(Newline)), pts, j);
    if j < |pts| && Other(u, pts[j].0) {
      var e := Span(Others(u), pts, j + 1);
      StarFirst(Newline, pts, e);
      StarThen(Others(u), Star(Newline), pts, j + 1, e);
    }
  }

  // On a run of spaces up to r: up to the last newline in it, if there is one.
  lemma LinesFirst(u: Classes, pts: seq<Point>, i: nat)
    requires i <= |pts| && NewlinesAreSpaces(u)
    ensures First(Lines(u), pts, i) == var x := LastNewline(pts, i, Span(u.space, pts, i)); if x >= 0 then x + 1 else -1
  {
    hide First;
    var r := Span(u.space, pts, i);
    var x := LastNewline(pts, i, r);
    forall y | i <= y <= r
      ensures First(Plus(Newline), pts, y) == if y < r && Newline(pts[y].0) then Span(Newline, pts, y) else -1
    {
      PlusFirst(Newline, pts, y);
    }
    if x >= 0 {
      assert Span(Newline, pts, x) == Span(Newline, pts, x + 1) == x + 1;
      StarThen(u.space, Plus(Newline), pts, i, x);
    } else {
      StarThenNone(u.space, Plus(Newline), pts, i);
    }
  }

  // A run of spaces before something else keeps its last space back, if it has two.
  lemma TrailingFirst(u: Classes, pts: seq<Point>, i: nat)
    requires i < |pts| && u.space(pts[i].0)
    ensures var r := Span(u.space, pts, i);
            First(Trailing(u), pts, i) == if r == |pts| then r else if r - 1 > i then r - 1 else -1
  {
    hide First;
    var r, b := Span(u.space, pts, i), NotAhead(NonSpaces(u));
    OneThen(u.space, Seq(Star(u.space), b), pts, i);
    forall y | i < y <= r
      ensures First(b, pts, y) == if y < |pts| && y == r then -1 else y
    {
      NotAheadFirst(u, pts, y);
    }
    if r == |pts| {
      StarThen(u.space, b, pts, i + 1, r);
    } else if r - 1 > i {
      StarThen(u.space, b, pts, i + 1, r - 1);
    } else {
      StarThenNone(u.space, b, pts, i + 1);
    }
  }

  lemma NotAheadFirst(u: Classes, pts: seq<Point>, y: nat)
    requires y <= |pts|
    ensures First(NotAhead(NonSpaces(u)), pts, y) == if y < |pts| && !u.space(pts[y].0) then -1 else y
  {
  }

  // ---- the pre-tokenizer matches the pattern ----

  // Every piece ends where the first match of the pattern ends; in particular the pattern matches
  // at every codepoint, whatever the classes of letters, numbers and spaces are.
  lemma CutIsTheMatch(u: Classes, pts: seq<Point>, i: nat)
    requires i < |pts| && NewlinesAreSpaces(u)
    ensures First(Cl100k(u), pts, i) == Cut(u, pts, i)
  {
    hide First, Suffixes, Words, Numbers, Symbols, Lines, Trailing, Plus, Contraction;
    SuffixesFirst(pts, i);
    WordsFirst(u, pts, i);
    NumbersFirst(u, pts, i);
    SymbolsFirst(u, pts, i);
    var spaces := Alt(Lines(u), Alt(Trailing(u), Plus(u.space)));
    AltFirst(Suffixes(), Alt(Words(u), Alt(Numbers(u), Alt(Symbols(u), spaces))), pts, i);
    AltFirst(Words(u), Alt(Numbers(u), Alt(Symbols(u), spaces)), pts, i);
    AltFirst(Numbers(u), Alt(Symbols(u), spaces), pts, i);
    AltFirst(Symbols(u), spaces, pts, i);
    if u.space(pts[i].0) {
      SpacesFirst(u, pts, i);
    }
  }

  lemma SpacesFirst(u: Classes, pts: seq<Point>, i: nat)
    requires i < |pts| && u.space(pts[i].0) && NewlinesAreSpaces(u)
    ensures First(Alt(Lines(u), Alt(Trailing(u), Plus(u.space))), pts, i) == SpaceEnd(pts, i, Span(u.space, pts, i))
  {
    hide First, Lines, Trailing, Plus;
    LinesFirst(u, pts, i);
    TrailingFirst(u, pts, i);
    PlusFirst(u.space, pts, i);
    AltFirst(Lines(u), Alt(Trailing(u), Plus(u.space)), pts, i);
    AltFirst(Trailing(u), Plus(u.space), pts, i);
  }

  // Piece ps[j] of the text lies between the codepoints cuts[j] and cuts[j + 1], and the pattern's
  // first match from the one ends at the other.
  ghost predicate PieceAt(u: Classes, t: Bytes, ps: seq<Bytes>, cuts: seq<nat>, j: nat)
    requires j < |ps| && |cuts| == |ps| + 1
  {
    && cuts[j] < cuts[j + 1] <= |Points(t)|
    && cuts[j + 1] == First(Cl100k(u), Points(t), cuts[j])
    && 0 <= Off(Points(t), cuts[j]) <= Off(Points(t), cuts[j + 1]) <= |t|
    && ps[j] == t[Off(Points(t), cuts[j])..Off(Points(t), cuts[j + 1])]
  }

  // The pieces ps are the matches of the pattern from codepoint i to the end, one after another.
  ghost predicate Matched(u: Classes, t: Bytes, ps: seq<Bytes>, cuts: seq<nat>, i: nat) {
    && |cuts| == |ps| + 1 && cuts[0] == i && cuts[|ps|] == |Points(t)|
    && forall j :: 0 <= j < |ps| ==> PieceAt(u, t, ps, cuts, j)
  }

  // The pieces of a text are the matches of the pattern, one after another from its beginning to its end.
  lemma PiecesAreMatches(u: Classes, t: Bytes) returns (cuts: seq<nat>)
    requires NewlinesAreSpaces(u)
    ensures Matched(u, t, PiecesFrom(u, t, 0), cuts, 0)
  {
    cuts := MatchesFrom(u, t, 0);
  }

  // From codepoint i on.
  lemma {:induction false} MatchesFrom(u: Classes, t: Bytes, i: nat) returns (cuts: seq<nat>)
    requires NewlinesAreSpaces(u) && i <= |Points(t)|
    ensures Matched(u, t, PiecesFrom(u, t, i), cuts, i)
    decreases |Points(t)| - i
  {
    hide First, Cl100k, Cut, Points, Off, NewlinesAreSpaces, Matched, PieceAt;
    if i == |Points(t)| {
      cuts := [i];
      NoMatchLeft(u, t);
    } else {
      var e := Cut(u, Points(t), i);
      var more := MatchesFrom(u, t, e);
      cuts := [i] + more;
      FirstPiece(u, t, i, e);
      OneMore(u, t, t[Off(Points(t), i)..Off(Points(t), e)], PiecesFrom(u, t, e), i, e, more);
    }
  }

  lemma NoMatchLeft(u: Classes, t: Bytes)
    ensures Matched(u, t, [], [|Points(t)|], |Points(t)|)
  {
  }

  lemma FirstPiece(u: Classes, t: Bytes, i: nat, e: nat)
    requires NewlinesAreSpaces(u) && i < |Points(t)| && e == Cut(u, Points(t), i)
    ensures i < e <= |Points(t)| && e == First(Cl100k(u), Points(t), i)
    ensures 0 <= Off(Points(t), i) <= Off(Points(t), e) <= |t|
  {
    hide First, Cl100k, Cut, Points, Off, NewlinesAreSpaces;
    CutIsTheMatch(u, Points(t), i);
    OffMono(Points(t), i, e);
    OffMono(Points(t), e, |Points(t)|);
    OffEnd(t);
  }

  lemma OneMore(u: Classes, t: Bytes, p: Bytes, ps: seq<Bytes>, i: nat, e: nat, more: seq<nat>)
    requires Matched(u, t, ps, more, e)
    requires i < e <= |Points(t)| && e == First(Cl100k(u), Points(t), i)
    requires 0 <= Off(Points(t), i) <= Off(Points(t), e) <= |t| && p == t[Off(Points(t), i)..Off(Points(t), e)]
    ensures Matched(u, t, [p] + ps, [i] + more, i)
  {
    hide First, Cl100k, Points, Off;
    var qs, cuts := [p] + ps, [i] + more;
    forall j: nat | j < |qs|
      ensures PieceAt(u, t, qs, cuts, j)
    {
      if j > 0 {
        assert PieceAt(u, t, ps, more, j - 1);
      }
    }
  }
}
