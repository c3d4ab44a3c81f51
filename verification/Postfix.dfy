/** Desugaring of the postfix operators ? * + in c/grammar.h: gr__postfix replaces the item just
    read by a reference to two fresh rules. The reference semantics below keeps the item in place
    and gives each operator its meaning directly. */
module Postfix {
  import opened Bits
  import opened Grammar

  const MAX_RULES := 1024

  datatype Op = Opt | Star | Plus

  // Where the operator stands: the symbols from n0 on of alternate ai of rule ri are its item.
  datatype Site = Site(ri: nat, ai: nat, n0: nat, op: Op)

  predicate IsSite(g: Rules, p: Site) {
    p.ri < |g| && p.ai < |g[p.ri]| && p.n0 <= |g[p.ri][p.ai]|
  }

  function Before(g: Rules, p: Site): Alt
    requires IsSite(g, p)
  {
    g[p.ri][p.ai][..p.n0]
  }

  function Item(g: Rules, p: Site): Alt
    requires IsSite(g, p)
  {
    g[p.ri][p.ai][p.n0..]
  }

  // ---- the reference semantics ----

  // A symbol of the grammar, or the postfixed item in its place.
  datatype XSym = Plain(sym: Sym) | Rep

  function Lift(ss: seq<Sym>): (xs: seq<XSym>)
    ensures |xs| == |ss|
  {
    seq(|ss|, i requires 0 <= i < |ss| => Plain(ss[i]))
  }

  function XAlt(g: Rules, p: Site, r: nat, a: nat): seq<XSym>
    requires IsSite(g, p) && r < |g| && a < |g[r]|
  {
    if r == p.ri && a == p.ai then Lift(Before(g, p)) + [Rep] else Lift(g[r][a])
  }

  // What the item and its operator may turn into.
  function Choice(g: Rules, p: Site, more: bool): seq<XSym>
    requires IsSite(g, p)
  {
    if more then Lift(Item(g, p)) + (if p.op == Opt then [] else [Rep])
    else if p.op == Plus then Lift(Item(g, p)) else []
  }

  ghost predicate XDerives(g: Rules, p: Site, xs: seq<XSym>, w: Bytes, n: nat)
    requires IsSite(g, p)
    decreases n, |xs|
  {
    if xs == [] then w == []
    else match xs[0]
      case Plain(Cls(c)) => w != [] && w[0] in c && XDerives(g, p, xs[1..], w[1..], n)
      case Plain(Ref(r)) =>
        n > 0 && r < |g| && exists a :: 0 <= a < |g[r]| && XDerives(g, p, XAlt(g, p, r, a) + xs[1..], w, n - 1)
      case Rep =>
        n > 0 && exists more :: XDerives(g, p, Choice(g, p, more) + xs[1..], w, n - 1)
  }

  ghost predicate XLang(g: Rules, p: Site, xs: seq<XSym>, w: Bytes)
    requires IsSite(g, p)
  {
    exists n: nat :: XDerives(g, p, xs, w, n)
  }

  // ---- desugaring ----

  // The fresh rules: the item, and the operator.
  function Choices(g: Rules, op: Op): seq<Alt> {
    match op
    case Opt => [[Ref(|g|)], []]
    case Star => [[Ref(|g|), Ref(|g| + 1)], []]
    case Plus => [[Ref(|g|), Ref(|g| + 1)], [Ref(|g|)]]
  }

  function Desugared(g: Rules, p: Site): Rules
    requires IsSite(g, p)
  {
    g[p.ri := g[p.ri][p.ai := Before(g, p) + [Ref(|g| + 1)]]] + [[Item(g, p)], Choices(g, p.op)]
  }

  // The form with the item in place, as symbols of the desugared grammar.
  function Lower(g: Rules, xs: seq<XSym>): (ss: seq<Sym>)
    ensures |ss| == |xs|
  {
    seq(|xs|, i requires 0 <= i < |xs| => if xs[i].Rep? then Ref(|g| + 1) else xs[i].sym)
  }

  // Every reference of the form is to a rule the grammar had.
  ghost predicate Old(g: Rules, xs: seq<XSym>) {
    forall i :: 0 <= i < |xs| && xs[i].Plain? && xs[i].sym.Ref? ==> xs[i].sym.rule < |g|
  }

  lemma LowerAppend(g: Rules, xs: seq<XSym>, ys: seq<XSym>)
    ensures Lower(g, xs + ys) == Lower(g, xs) + Lower(g, ys)
  {
  }

  lemma LowerLift(g: Rules, ss: seq<Sym>)
    ensures Lower(g, Lift(ss)) == ss
  {
  }

  lemma LowerTail(g: Rules, xs: seq<XSym>)
    requires xs != []
    ensures Lower(g, xs)[1..] == Lower(g, xs[1..])
  {
  }

  // The desugared alternates are the lowered ones.
  lemma LoweredAlt(g: Rules, p: Site, r: nat, a: nat)
    requires RefsClosed(g) && IsSite(g, p) && r < |g| && a < |g[r]|
    ensures |Desugared(g, p)[r]| == |g[r]| && Desugared(g, p)[r][a] == Lower(g, XAlt(g, p, r, a))
    ensures Old(g, XAlt(g, p, r, a))
  {
    LowerLift(g, g[r][a]);
    LowerLift(g, Before(g, p));
    LowerAppend(g, Lift(Before(g, p)), [Rep]);
    assert RefsIn(g[r][a], |g|) && RefsIn(g[p.ri][p.ai], |g|);
  }

  lemma LoweredChoice(g: Rules, p: Site, more: bool)
    requires RefsClosed(g) && IsSite(g, p)
    ensures Lower(g, Choice(g, p, more)) ==
              (if more || p.op == Plus then Item(g, p) else []) + (if more && p.op != Opt then [Ref(|g| + 1)] else [])
    ensures Old(g, Choice(g, p, more))
  {
    LowerLift(g, Item(g, p));
    LowerAppend(g, Lift(Item(g, p)), [Rep]);
    assert RefsIn(g[p.ri][p.ai], |g|);
  }

  lemma {:induction false} Monotone(g: Rules, ss: seq<Sym>, w: Bytes, n: nat, m: nat)
    requires Derives(g, ss, w, n) && n <= m
    ensures Derives(g, ss, w, m)
    decreases n, |ss|
  {
    if ss != [] {
      match ss[0] {
        case Cls(c) => Monotone(g, ss[1..], w[1..], n, m);
        case Ref(r) =>
          var a :| 0 <= a < |g[r]| && Derives(g, g[r][a] + ss[1..], w, n - 1);
          Monotone(g, g[r][a] + ss[1..], w, n - 1, m - 1);
      }
    }
  }

  // The steps of a derivation, one way and the other.
  lemma CutCls(g: Rules, p: Site, c: set<byte>, xs: seq<XSym>, w: Bytes, n: nat)
    requires IsSite(g, p) && xs != [] && xs[0] == Plain(Cls(c))
    ensures XDerives(g, p, xs, w, n) <==> w != [] && w[0] in c && XDerives(g, p, xs[1..], w[1..], n)
  {
  }

  lemma CutRef(g: Rules, p: Site, r: nat, xs: seq<XSym>, w: Bytes, n: nat) returns (a: nat)
    requires IsSite(g, p) && xs != [] && xs[0] == Plain(Ref(r)) && XDerives(g, p, xs, w, n)
    ensures n > 0 && r < |g| && a < |g[r]| && XDerives(g, p, XAlt(g, p, r, a) + xs[1..], w, n - 1)
  {
    a :| 0 <= a < |g[r]| && XDerives(g, p, XAlt(g, p, r, a) + xs[1..], w, n - 1);
  }

  lemma PasteRef(g: Rules, p: Site, r: nat, a: nat, xs: seq<XSym>, w: Bytes, n: nat)
    requires IsSite(g, p) && xs != [] && xs[0] == Plain(Ref(r)) && r < |g| && a < |g[r]|
    requires n > 0 && XDerives(g, p, XAlt(g, p, r, a) + xs[1..], w, n - 1)
    ensures XDerives(g, p, xs, w, n)
  {
  }

  lemma CutRep(g: Rules, p: Site, xs: seq<XSym>, w: Bytes, n: nat) returns (more: bool)
    requires IsSite(g, p) && xs != [] && xs[0] == Rep && XDerives(g, p, xs, w, n)
    ensures n > 0 && XDerives(g, p, Choice(g, p, more) + xs[1..], w, n - 1)
  {
    more :| XDerives(g, p, Choice(g, p, more) + xs[1..], w, n - 1);
  }

  lemma PasteRep(g: Rules, p: Site, more: bool, xs: seq<XSym>, w: Bytes, n: nat)
    requires IsSite(g, p) && xs != [] && xs[0] == Rep && n > 0 && XDerives(g, p, Choice(g, p, more) + xs[1..], w, n - 1)
    ensures XDerives(g, p, xs, w, n)
  {
  }

  lemma XEmpty(g: Rules, p: Site, w: Bytes, n: nat)
    requires IsSite(g, p)
    ensures XDerives(g, p, [], w, n) <==> w == []
  {
  }

  lemma Assoc<T>(a: seq<T>, b: seq<T>, c: seq<T>)
    ensures a + (b + c) == (a + b) + c
  {
  }

  lemma {:induction false} XMonotone(g: Rules, p: Site, xs: seq<XSym>, w: Bytes, n: nat, m: nat)
    requires IsSite(g, p) && XDerives(g, p, xs, w, n) && n <= m
    ensures XDerives(g, p, xs, w, m)
    decreases n, |xs|
  {
    hide XDerives, XAlt, Choice;
    if xs == [] {
      XEmpty(g, p, w, n);
      XEmpty(g, p, w, m);
      return;
    }
    match xs[0] {
      case Plain(Cls(c)) =>
        CutCls(g, p, c, xs, w, n);
        XMonotone(g, p, xs[1..], w[1..], n, m);
        CutCls(g, p, c, xs, w, m);
      case Plain(Ref(r)) =>
        var a := CutRef(g, p, r, xs, w, n);
        XMonotone(g, p, XAlt(g, p, r, a) + xs[1..], w, n - 1, m - 1);
        PasteRef(g, p, r, a, xs, w, m);
      case Rep =>
        var more := CutRep(g, p, xs, w, n);
        XMonotone(g, p, Choice(g, p, more) + xs[1..], w, n - 1, m - 1);
        PasteRep(g, p, more, xs, w, m);
    }
  }

  // Expanding the operator's rule, and then the item's, in the desugared grammar.
  lemma ExpandChoice(g: Rules, p: Site, more: bool, rest: seq<Sym>, w: Bytes, n: nat)
    requires RefsClosed(g) && IsSite(g, p) && Derives(Desugared(g, p), Lower(g, Choice(g, p, more)) + rest, w, n)
    ensures Derives(Desugared(g, p), [Ref(|g| + 1)] + rest, w, n + 2)
  {
    hide Derives;
    var d := Desugared(g, p);
    LoweredChoice(g, p, more);
    var tail := (if more && p.op != Opt then [Ref(|g| + 1)] else []) + rest;
    assert d[|g|] == [Item(g, p)] && d[|g| + 1] == Choices(g, p.op);
    var a := if more then 0 else 1;
    if more || p.op == Plus {
      assert Lower(g, Choice(g, p, more)) + rest == Item(g, p) + tail;
      Expand(d, |g|, 0, tail, w, n);
      assert d[|g| + 1][a] + rest == [Ref(|g|)] + tail;
    } else {
      assert Lower(g, Choice(g, p, more)) + rest == rest == d[|g| + 1][a] + rest;
      Monotone(d, rest, w, n, n + 1);
    }
    Expand(d, |g| + 1, a, rest, w, n + 1);
  }

  lemma Expand(d: Rules, r: nat, a: nat, rest: seq<Sym>, w: Bytes, n: nat)
    requires r < |d| && a < |d[r]| && Derives(d, d[r][a] + rest, w, n)
    ensures Derives(d, [Ref(r)] + rest, w, n + 1)
  {
    assert ([Ref(r)] + rest)[1..] == rest;
  }

  // Whatever the form derives with the item in place, the desugared grammar derives.
  lemma {:induction false} DesugaringKeeps(g: Rules, p: Site, xs: seq<XSym>, w: Bytes, n: nat)
    requires RefsClosed(g) && IsSite(g, p) && Old(g, xs) && XDerives(g, p, xs, w, n)
    ensures Derives(Desugared(g, p), Lower(g, xs), w, 2 * n)
    decreases n, |xs|
  {
    hide Desugared, XAlt, Choice, Lower;
    if xs != [] {
      var rest := xs[1..];
      LowerTail(g, xs);
      LowerHead(g, xs);
      match xs[0] {
        case Plain(Cls(c)) => DesugaringKeeps(g, p, rest, w[1..], n);
        case Plain(Ref(r)) =>
          var a :| 0 <= a < |g[r]| && XDerives(g, p, XAlt(g, p, r, a) + rest, w, n - 1);
          LoweredAlt(g, p, r, a);
          DesugaringKeeps(g, p, XAlt(g, p, r, a) + rest, w, n - 1);
          LowerAppend(g, XAlt(g, p, r, a), rest);
          KnownRule(g, p);
          Expand(Desugared(g, p), r, a, Lower(g, rest), w, 2 * n - 2);
          Monotone(Desugared(g, p), Lower(g, xs), w, 2 * n - 1, 2 * n);
        case Rep =>
          var more :| XDerives(g, p, Choice(g, p, more) + rest, w, n - 1);
          LoweredChoice(g, p, more);
          DesugaringKeeps(g, p, Choice(g, p, more) + rest, w, n - 1);
          LowerAppend(g, Choice(g, p, more), rest);
          ExpandChoice(g, p, more, Lower(g, rest), w, 2 * n - 2);
      }
    }
  }

  lemma LowerHead(g: Rules, xs: seq<XSym>)
    requires xs != []
    ensures Lower(g, xs) == [if xs[0].Rep? then Ref(|g| + 1) else xs[0].sym] + Lower(g, xs[1..])
  {
  }

  lemma KnownRule(g: Rules, p: Site)
    requires IsSite(g, p)
    ensures |Desugared(g, p)| == |g| + 2
  {
  }

  // The desugared grammar's derivation from the operator's rule takes one of the choices.
  lemma UnfoldChoice(g: Rules, p: Site, rest: seq<Sym>, w: Bytes, n: nat) returns (more: bool)
    requires RefsClosed(g) && IsSite(g, p) && Derives(Desugared(g, p), [Ref(|g| + 1)] + rest, w, n)
    ensures n > 0 && Derives(Desugared(g, p), Lower(g, Choice(g, p, more)) + rest, w, n - 1)
  {
    hide Derives, Choice, Lower;
    var d := Desugared(g, p);
    assert d[|g| + 1] == Choices(g, p.op);
    var a := UnfoldRule(d, |g| + 1, rest, w, n);
    more := a == 0;
    LoweredChoice(g, p, more);
    hide Desugared;
    var tail := (if more && p.op != Opt then [Ref(|g| + 1)] else []) + rest;
    if more || p.op == Plus {
      assert d[|g| + 1][a] + rest == [Ref(|g|)] + tail;
      UnfoldItem(g, p, tail, w, n - 1);
      assert Lower(g, Choice(g, p, more)) + rest == Item(g, p) + tail;
      Monotone(d, Item(g, p) + tail, w, n - 2, n - 1);
    } else {
      assert Lower(g, Choice(g, p, more)) + rest == d[|g| + 1][a] + rest;
    }
  }

  lemma UnfoldRule(d: Rules, r: nat, rest: seq<Sym>, w: Bytes, n: nat) returns (a: nat)
    requires r < |d| && Derives(d, [Ref(r)] + rest, w, n)
    ensures n > 0 && a < |d[r]| && Derives(d, d[r][a] + rest, w, n - 1)
  {
    assert ([Ref(r)] + rest)[1..] == rest;
    a :| 0 <= a < |d[r]| && Derives(d, d[r][a] + rest, w, n - 1);
  }

  lemma UnfoldItem(g: Rules, p: Site, tail: seq<Sym>, w: Bytes, n: nat)
    requires IsSite(g, p) && Derives(Desugared(g, p), [Ref(|g|)] + tail, w, n)
    ensures n > 0 && Derives(Desugared(g, p), Item(g, p) + tail, w, n - 1)
  {
    assert Desugared(g, p)[|g|] == [Item(g, p)];
    var a := UnfoldRule(Desugared(g, p), |g|, tail, w, n);
  }

  // And the desugared grammar derives nothing else.
  lemma {:induction false} DesugaringAddsNothing(g: Rules, p: Site, xs: seq<XSym>, w: Bytes, n: nat)
    requires RefsClosed(g) && IsSite(g, p) && Old(g, xs) && Derives(Desugared(g, p), Lower(g, xs), w, n)
    ensures XDerives(g, p, xs, w, n)
    decreases n, |xs|
  {
    hide Desugared, XAlt, Choice, Lower;
    if xs != [] {
      var rest := xs[1..];
      LowerTail(g, xs);
      LowerHead(g, xs);
      match xs[0] {
        case Plain(Cls(c)) => DesugaringAddsNothing(g, p, rest, w[1..], n);
        case Plain(Ref(r)) =>
          var d := Desugared(g, p);
          var a :| 0 <= a < |d[r]| && Derives(d, d[r][a] + Lower(g, rest), w, n - 1);
          SameAlternates(g, p, r);
          LoweredAlt(g, p, r, a);
          LowerAppend(g, XAlt(g, p, r, a), rest);
          DesugaringAddsNothing(g, p, XAlt(g, p, r, a) + rest, w, n - 1);
        case Rep =>
          var more := UnfoldChoice(g, p, Lower(g, rest), w, n);
          LoweredChoice(g, p, more);
          LowerAppend(g, Choice(g, p, more), rest);
          DesugaringAddsNothing(g, p, Choice(g, p, more) + rest, w, n - 1);
      }
    }
  }

  lemma SameAlternates(g: Rules, p: Site, r: nat)
    requires IsSite(g, p) && r < |g|
    ensures |Desugared(g, p)| == |g| + 2 && |Desugared(g, p)[r]| == |g[r]|
  {
  }

  // Desugaring preserves meaning: every form over the grammar's own rules derives the same words
  // from the desugared grammar as with the item in place.
  lemma DesugaringPreserves(g: Rules, p: Site, xs: seq<XSym>, w: Bytes)
    requires RefsClosed(g) && IsSite(g, p) && Old(g, xs)
    ensures XLang(g, p, xs, w) <==> InLang(Desugared(g, p), Lower(g, xs), w)
  {
    hide Desugared, Lower, XDerives, Derives;
    if XLang(g, p, xs, w) {
      var n: nat :| XDerives(g, p, xs, w, n);
      DesugaringKeeps(g, p, xs, w, n);
    }
    if InLang(Desugared(g, p), Lower(g, xs), w) {
      var n: nat :| Derives(Desugared(g, p), Lower(g, xs), w, n);
      DesugaringAddsNothing(g, p, xs, w, n);
    }
  }

  // ---- what the operators mean ----

  // A form in two parts derives a word in two parts.
  lemma {:induction false} XSplit(g: Rules, p: Site, xs: seq<XSym>, ys: seq<XSym>, w: Bytes, n: nat) returns (u: Bytes, v: Bytes)
    requires IsSite(g, p) && XDerives(g, p, xs + ys, w, n)
    ensures w == u + v && XDerives(g, p, xs, u, n) && XDerives(g, p, ys, v, n)
    decreases n, |xs|
  {
    hide XDerives, XAlt, Choice;
    if xs == [] {
      XEmpty(g, p, [], n);
      assert xs + ys == ys && w == [] + w;
      return [], w;
    }
    assert (xs + ys)[1..] == xs[1..] + ys && (xs + ys)[0] == xs[0];
    match xs[0] {
      case Plain(Cls(c)) =>
        CutCls(g, p, c, xs + ys, w, n);
        var u1, v1 := XSplit(g, p, xs[1..], ys, w[1..], n);
        u, v := [w[0]] + u1, v1;
        Assoc([w[0]], u1, v1);
        assert u[1..] == u1 && w == [w[0]] + w[1..];
        CutCls(g, p, c, xs, u, n);
      case Plain(Ref(r)) =>
        var a := CutRef(g, p, r, xs + ys, w, n);
        Assoc(XAlt(g, p, r, a), xs[1..], ys);
        u, v := XSplit(g, p, XAlt(g, p, r, a) + xs[1..], ys, w, n - 1);
        PasteRef(g, p, r, a, xs, u, n);
        XMonotone(g, p, ys, v, n - 1, n);
      case Rep =>
        var more := CutRep(g, p, xs + ys, w, n);
        Assoc(Choice(g, p, more), xs[1..], ys);
        u, v := XSplit(g, p, Choice(g, p, more) + xs[1..], ys, w, n - 1);
        PasteRep(g, p, more, xs, u, n);
        XMonotone(g, p, ys, v, n - 1, n);
    }
  }

  lemma {:induction false} XJoin(g: Rules, p: Site, xs: seq<XSym>, ys: seq<XSym>, u: Bytes, v: Bytes, n: nat, m: nat)
    requires IsSite(g, p) && XDerives(g, p, xs, u, n) && XDerives(g, p, ys, v, m)
    ensures XDerives(g, p, xs + ys, u + v, n + m)
    decreases n, |xs|
  {
    hide XDerives, XAlt, Choice;
    if xs == [] {
      XEmpty(g, p, u, n);
      assert xs + ys == ys && u + v == v;
      XMonotone(g, p, ys, v, m, n + m);
      return;
    }
    assert (xs + ys)[1..] == xs[1..] + ys && (xs + ys)[0] == xs[0];
    match xs[0] {
      case Plain(Cls(c)) =>
        CutCls(g, p, c, xs, u, n);
        XJoin(g, p, xs[1..], ys, u[1..], v, n, m);
        assert (u + v)[1..] == u[1..] + v && (u + v)[0] == u[0];
        CutCls(g, p, c, xs + ys, u + v, n + m);
      case Plain(Ref(r)) =>
        var a := CutRef(g, p, r, xs, u, n);
        XJoin(g, p, XAlt(g, p, r, a) + xs[1..], ys, u, v, n - 1, m);
        Assoc(XAlt(g, p, r, a), xs[1..], ys);
        PasteRef(g, p, r, a, xs + ys, u + v, n + m);
      case Rep =>
        var more := CutRep(g, p, xs, u, n);
        XJoin(g, p, Choice(g, p, more) + xs[1..], ys, u, v, n - 1, m);
        Assoc(Choice(g, p, more), xs[1..], ys);
        PasteRep(g, p, more, xs + ys, u + v, n + m);
    }
  }

  // A form in two parts derives the words of the first followed by those of the second.
  lemma PartsMeaning(g: Rules, p: Site, xs: seq<XSym>, ys: seq<XSym>, w: Bytes)
    requires IsSite(g, p)
    ensures XLang(g, p, xs + ys, w) <==> exists u, v :: w == u + v && XLang(g, p, xs, u) && XLang(g, p, ys, v)
  {
    hide XDerives;
    if XLang(g, p, xs + ys, w) {
      var n: nat :| XDerives(g, p, xs + ys, w, n);
      var u, v := XSplit(g, p, xs, ys, w, n);
      assert XLang(g, p, xs, u) && XLang(g, p, ys, v);
    }
    if u, v :| w == u + v && XLang(g, p, xs, u) && XLang(g, p, ys, v) {
      var n: nat :| XDerives(g, p, xs, u, n);
      var m: nat :| XDerives(g, p, ys, v, m);
      XJoin(g, p, xs, ys, u, v, n, m);
    }
  }

  // The word is a concatenation of at least `least` words of the item.
  ghost predicate Repeats(g: Rules, p: Site, w: Bytes, least: nat)
    requires IsSite(g, p)
  {
    exists ws: seq<Bytes> :: RepeatsAs(g, p, w, least, ws)
  }

  ghost predicate RepeatsAs(g: Rules, p: Site, w: Bytes, least: nat, ws: seq<Bytes>)
    requires IsSite(g, p)
  {
    |ws| >= least && Concat(ws) == w && forall i :: 0 <= i < |ws| ==> XLang(g, p, Lift(Item(g, p)), ws[i])
  }

  function Least(op: Op): nat {
    if op == Plus then 1 else 0
  }

  // One choice of the operator, at the level of words.
  lemma RepChoice(g: Rules, p: Site, w: Bytes)
    requires IsSite(g, p)
    ensures XLang(g, p, [Rep], w) <==> exists more :: XLang(g, p, Choice(g, p, more), w)
  {
    hide Choice;
    assert [Rep][1..] == [];
    assert forall more :: Choice(g, p, more) + [] == Choice(g, p, more);
    if XLang(g, p, [Rep], w) {
      var n: nat :| XDerives(g, p, [Rep], w, n);
      var more :| XDerives(g, p, Choice(g, p, more) + [Rep][1..], w, n - 1);
      assert XLang(g, p, Choice(g, p, more), w);
    }
    if more :| XLang(g, p, Choice(g, p, more), w) {
      var n: nat :| XDerives(g, p, Choice(g, p, more), w, n);
      assert XDerives(g, p, Choice(g, p, more) + [Rep][1..], w, n);
      assert XDerives(g, p, [Rep], w, n + 1);
    }
  }

  lemma NothingDerives(g: Rules, p: Site, w: Bytes)
    requires IsSite(g, p)
    ensures XLang(g, p, [], w) <==> w == []
  {
    assert XDerives(g, p, [], w, 0) <==> w == [];
  }

  // item? derives the empty word and the words of the item.
  lemma OptMeaning(g: Rules, p: Site, w: Bytes)
    requires IsSite(g, p) && p.op == Opt
    ensures XLang(g, p, [Rep], w) <==> w == [] || XLang(g, p, Lift(Item(g, p)), w)
  {
    hide XLang;
    RepChoice(g, p, w);
    NothingDerives(g, p, w);
    assert Choice(g, p, true) == Lift(Item(g, p)) && Choice(g, p, false) == [];
  }

  // A derivation of item* or item+ is a list of item words.
  lemma {:induction false} RepIsRepeats(g: Rules, p: Site, w: Bytes, n: nat) returns (ws: seq<Bytes>)
    requires IsSite(g, p) && p.op != Opt && XDerives(g, p, [Rep], w, n)
    ensures RepeatsAs(g, p, w, Least(p.op), ws)
    decreases n
  {
    hide Item, Lift;
    assert [Rep][1..] == [];
    var more :| XDerives(g, p, Choice(g, p, more) + [Rep][1..], w, n - 1);
    assert Choice(g, p, more) + [] == Choice(g, p, more);
    if more {
      var u, v := XSplit(g, p, Lift(Item(g, p)), [Rep], w, n - 1);
      var rest := RepIsRepeats(g, p, v, n - 1);
      ws := [u] + rest;
      RepeatsCons(g, p, u, v, Least(p.op), rest);
      assert w == u + v;
    } else if p.op == Plus {
      ws := [w];
      assert XLang(g, p, Lift(Item(g, p)), w);
      OneRepeat(g, p, w);
    } else {
      assert Choice(g, p, more) == [] && w == [];
      ws := [];
    }
  }

  lemma OneRepeat(g: Rules, p: Site, w: Bytes)
    requires IsSite(g, p) && XLang(g, p, Lift(Item(g, p)), w)
    ensures RepeatsAs(g, p, w, 1, [w])
  {
    assert [w][1..] == [] && w + [] == w;
  }

  lemma RepeatsCons(g: Rules, p: Site, u: Bytes, v: Bytes, least: nat, ws: seq<Bytes>)
    requires IsSite(g, p) && XLang(g, p, Lift(Item(g, p)), u) && RepeatsAs(g, p, v, least, ws)
    ensures RepeatsAs(g, p, u + v, least, [u] + ws)
  {
    assert ([u] + ws)[1..] == ws;
  }

  lemma {:induction false} RepeatsIsRep(g: Rules, p: Site, w: Bytes, ws: seq<Bytes>)
    requires IsSite(g, p) && p.op != Opt && RepeatsAs(g, p, w, Least(p.op), ws)
    ensures XLang(g, p, [Rep], w)
    decreases |ws|
  {
    hide XLang, Lift, Item;
    RepChoice(g, p, w);
    if |ws| == Least(p.op) {
      if p.op == Plus {
        assert Concat(ws[1..]) == [] && w == ws[0];
        assert Choice(g, p, false) == Lift(Item(g, p));
      } else {
        NothingDerives(g, p, w);
        assert Choice(g, p, false) == [];
      }
    } else {
      var v := Concat(ws[1..]);
      RepeatsIsRep(g, p, v, ws[1..]);
      PartsMeaning(g, p, Lift(Item(g, p)), [Rep], w);
      assert w == ws[0] + v;
      assert Choice(g, p, true) == Lift(Item(g, p)) + [Rep];
    }
  }

  // item* derives the concatenations of item words, item+ those of at least one.
  lemma RepeatMeaning(g: Rules, p: Site, w: Bytes)
    requires IsSite(g, p) && p.op != Opt
    ensures XLang(g, p, [Rep], w) <==> Repeats(g, p, w, Least(p.op))
  {
    hide XDerives, RepeatsAs, Choice;
    if XLang(g, p, [Rep], w) {
      var n: nat :| XDerives(g, p, [Rep], w, n);
      var ws := RepIsRepeats(g, p, w, n);
    }
    if Repeats(g, p, w, Least(p.op)) {
      var ws :| RepeatsAs(g, p, w, Least(p.op), ws);
      RepeatsIsRep(g, p, w, ws);
    }
  }

  // What the desugared grammar makes of the edited alternate: the words of its prefix followed by
  // the words of the item, optional or repeated, all derived in the desugared grammar itself.
  ghost predicate OperatorWord(g: Rules, p: Site, v: Bytes)
    requires IsSite(g, p)
  {
    if p.op == Opt then v == [] || InLang(Desugared(g, p), Item(g, p), v)
    else exists ws: seq<Bytes> :: ItemWords(g, p, v, ws)
  }

  ghost predicate ItemWords(g: Rules, p: Site, v: Bytes, ws: seq<Bytes>)
    requires IsSite(g, p)
  {
    && |ws| >= Least(p.op) && Concat(ws) == v
    && forall i :: 0 <= i < |ws| ==> InLang(Desugared(g, p), Item(g, p), ws[i])
  }

  // A sequence over the grammar's own rules means the same in place and desugared.
  lemma LiftedLang(g: Rules, p: Site, ss: seq<Sym>, w: Bytes)
    requires RefsClosed(g) && IsSite(g, p) && RefsIn(ss, |g|)
    ensures XLang(g, p, Lift(ss), w) <==> InLang(Desugared(g, p), ss, w)
  {
    LowerLift(g, ss);
    DesugaringPreserves(g, p, Lift(ss), w);
  }

  lemma SiteRefs(g: Rules, p: Site)
    requires RefsClosed(g) && IsSite(g, p)
    ensures RefsIn(Before(g, p), |g|) && RefsIn(Item(g, p), |g|)
  {
    assert RefsIn(g[p.ri][p.ai], |g|);
  }

  lemma OperatorMeaning(g: Rules, p: Site, v: Bytes)
    requires RefsClosed(g) && IsSite(g, p)
    ensures XLang(g, p, [Rep], v) <==> OperatorWord(g, p, v)
  {
    hide XLang, InLang, Desugared, Lift, Item, Before;
    SiteRefs(g, p);
    forall w: Bytes
      ensures XLang(g, p, Lift(Item(g, p)), w) <==> InLang(Desugared(g, p), Item(g, p), w)
    {
      LiftedLang(g, p, Item(g, p), w);
    }
    if p.op == Opt {
      OptMeaning(g, p, v);
    } else {
      RepeatMeaning(g, p, v);
      forall ws: seq<Bytes>
        ensures RepeatsAs(g, p, v, Least(p.op), ws) <==> ItemWords(g, p, v, ws)
      {
      }
    }
  }

  // The edited alternate derives its prefix followed by item?, item* or item+.
  lemma EditedAlternate(g: Rules, p: Site, w: Bytes)
    requires RefsClosed(g) && IsSite(g, p)
    ensures p.ri < |Desugared(g, p)| && p.ai < |Desugared(g, p)[p.ri]|
    ensures InLang(Desugared(g, p), Desugared(g, p)[p.ri][p.ai], w) <==>
              exists u, v :: w == u + v && InLang(Desugared(g, p), Before(g, p), u) && OperatorWord(g, p, v)
  {
    hide XLang, InLang, Lift, OperatorWord;
    LoweredAlt(g, p, p.ri, p.ai);
    DesugaringPreserves(g, p, XAlt(g, p, p.ri, p.ai), w);
    PartsMeaning(g, p, Lift(Before(g, p)), [Rep], w);
    SiteRefs(g, p);
    forall u: Bytes
      ensures XLang(g, p, Lift(Before(g, p)), u) <==> InLang(Desugared(g, p), Before(g, p), u)
      ensures XLang(g, p, [Rep], u) <==> OperatorWord(g, p, u)
    {
      LiftedLang(g, p, Before(g, p), u);
      OperatorMeaning(g, p, u);
    }
  }

  // ---- unrelated rules ----

  // A set of rules that refer only to one another.
  ghost predicate Island(g: Rules, c: set<nat>) {
    forall r, a, i :: r in c && r < |g| && 0 <= a < |g[r]| && 0 <= i < |g[r][a]| && g[r][a][i].Ref? ==> g[r][a][i].rule in c
  }

  ghost predicate Within(ss: seq<Sym>, c: set<nat>) {
    forall i :: 0 <= i < |ss| && ss[i].Ref? ==> ss[i].rule in c
  }

  lemma {:induction false} IslandDerives(g: Rules, d: Rules, c: set<nat>, ss: seq<Sym>, w: Bytes, n: nat)
    requires Island(g, c) && Within(ss, c) && (forall r :: r in c ==> r < |g| && r < |d| && g[r] == d[r])
    requires Derives(g, ss, w, n)
    ensures Derives(d, ss, w, n)
    decreases n, |ss|
  {
    if ss != [] {
      match ss[0] {
        case Cls(_) => IslandDerives(g, d, c, ss[1..], w[1..], n);
        case Ref(r) =>
          var a :| 0 <= a < |g[r]| && Derives(g, g[r][a] + ss[1..], w, n - 1);
          assert d[r][a] == g[r][a];
          IslandDerives(g, d, c, g[r][a] + ss[1..], w, n - 1);
      }
    }
  }

  // Rules from which the edited rule cannot be reached keep their language.
  lemma UnrelatedUnchanged(g: Rules, p: Site, c: set<nat>, ss: seq<Sym>, w: Bytes)
    requires RefsClosed(g) && IsSite(g, p) && Island(g, c) && Within(ss, c) && p.ri !in c && forall r :: r in c ==> r < |g|
    ensures InLang(g, ss, w) <==> InLang(Desugared(g, p), ss, w)
  {
    hide Derives;
    var d := Desugared(g, p);
    assert forall r :: r in c ==> g[r] == d[r];
    if InLang(g, ss, w) {
      var n: nat :| Derives(g, ss, w, n);
      IslandDerives(g, d, c, ss, w, n);
    }
    if InLang(d, ss, w) {
      var n: nat :| Derives(d, ss, w, n);
      IslandDerives(d, g, c, ss, w, n);
    }
  }

  // ---- the edit ----

  // The rule table, as the parser edits it.
  class RuleTable {
    var rules: Rules

    constructor ()
      ensures rules == []
    {
      rules := [];
    }

    // gr__anon: a fresh rule, -1 when the table is full.
    method Anon() returns (ri: int)
      modifies this
      ensures |old(rules)| >= 1024 ==> ri == -1 && rules == old(rules)
      ensures |old(rules)| < 1024 ==> ri == |old(rules)| && rules == old(rules) + [[]]
    {
      if |rules| >= MAX_RULES {
        return -1;
      }
      ri := |rules|;
      rules := rules + [[]];
    }

    // gr__alt_new.
    method AltNew(ri: nat) returns (ai: nat)
      requires ri < |rules|
      modifies this
      ensures ai == |old(rules)[ri]| && rules == old(rules)[ri := old(rules)[ri] + [[]]]
    {
      ai := |rules[ri]|;
      rules := rules[ri := rules[ri] + [[]]];
    }

    // gr__push.
    method Push(ri: nat, ai: nat, sy: Sym)
      requires ri < |rules| && ai < |rules[ri]|
      modifies this
      ensures rules == old(rules)[ri := old(rules)[ri][ai := old(rules)[ri][ai] + [sy]]]
    {
      rules := rules[ri := rules[ri][ai := rules[ri][ai] + [sy]]];
    }

    // gr__postfix on the symbols from n0 on of alternate ai: -1 when the table cannot take two
    // more rules, and a no-op on an empty item.
    method Postfix(ri: nat, ai: nat, n0: nat, op: Op) returns (r: int)
      requires IsSite(rules, Site(ri, ai, n0, op))
      modifies this
      ensures var p := Site(ri, ai, n0, op);
              if n0 == |old(rules)[ri][ai]| then r == 0 && rules == old(rules)
              else if |old(rules)| + 2 > 1024 then r == -1
              else r == 0 && rules == Desugared(old(rules), p)
    {
      ghost var was := rules;
      ghost var p := Site(ri, ai, n0, op);
      var k := |rules[ri][ai]| - n0;
      if k <= 0 {
        return 0;
      }
      var ii := Anon();
      if ii < 0 {
        return -1;
      }
      var ia := AltNew(ii);
      NewLastAlt(was, []);
      assert Item(was, p)[..0] == [];
      for j := 0 to k
        invariant ii == |was| && ia == 0 && rules == was + [[] + [Item(was, p)[..j]]]
      {
        ghost var item := Item(was, p);
        PushLastAlt(was, [], item[..j], item[j]);
        Push(ii, ia, rules[ri][ai][n0 + j]);
        assert Item(was, p)[..j] + [Item(was, p)[j]] == Item(was, p)[..j + 1];
      }
      assert Item(was, p)[..k] == Item(was, p);
      rules := rules[ri := rules[ri][ai := rules[ri][ai][..n0]]];
      var rr := Anon();
      if rr < 0 {
        return -1;
      }
      ghost var base := was[ri := was[ri][ai := Before(was, p)]] + [[] + [Item(was, p)]];
      assert [] + [Item(was, p)] == [Item(was, p)];
      assert rules == base + [[]];
      OperatorRule(ii, rr, op, base);
      Push(ri, ai, Ref(rr));
      assert rules[ri] == was[ri][ai := Before(was, p) + [Ref(rr)]];
      assert rules == Desugared(was, p);
      r := 0;
    }

    // Fills the operator's rule, last in the table.
    method OperatorRule(ii: nat, rr: nat, op: Op, ghost base: Rules)
      requires |base| > 0 && rules == base + [[]] && rr == |base| && ii == rr - 1
      modifies this
      ensures rules == base + [Choices(base[..ii], op)]
    {
      var a0 := AltNew(rr);
      NewLastAlt(base, []);
      Push(rr, a0, Ref(ii));
      PushLastAlt(base, [], [], Ref(ii));
      ghost var first: Alt := [] + [Ref(ii)];
      assert rules == base + [[] + [first]];
      if op == Star || op == Plus {
        Push(rr, a0, Ref(rr));
        PushLastAlt(base, [], first, Ref(rr));
        first := first + [Ref(rr)];
      }
      assert rules == base + [[] + [first]];
      var a1 := AltNew(rr);
      NewLastAlt(base, [] + [first]);
      if op == Plus {
        Push(rr, a1, Ref(ii));
        PushLastAlt(base, [] + [first], [], Ref(ii));
        assert rules == base + [[] + [first] + [[] + [Ref(ii)]]];
      }
      ghost var item: Alt := [Ref(ii)];
      assert [] + item == item;
      assert [] + [first] + [item] == [first, item] && [] + [first] + [[]] == [first, []];
      assert first == if op == Opt then item else [Ref(ii), Ref(rr)];
    }
  }

  // Adding an alternate to the last rule, and a symbol to its last alternate.
  lemma NewLastAlt(base: Rules, alts: seq<Alt>)
    ensures (base + [alts])[|base| := alts + [[]]] == base + [alts + [[]]]
  {
  }

  lemma PushLastAlt(base: Rules, alts: seq<Alt>, alt: Alt, sy: Sym)
    ensures var g, n := base + [alts + [alt]], |base|;
            g[n := g[n][|alts| := g[n][|alts|] + [sy]]] == base + [alts + [alt + [sy]]]
  {
    assert (alts + [alt])[|alts| := alt + [sy]] == alts + [alt + [sy]];
  }
}
