/** The grammar walker of c/grammar.h: a pushdown automaton over a bounded set of stacks, and the
    byte spans it calls forced. Language membership is leftmost derivation. */
module Grammar {
  import opened Bits
  import opened Wrappers

  const MAX_STACKS := 64
  const MAX_DEPTH := 64

  datatype Sym = Cls(bytes: set<byte>) | Ref(rule: nat)
  type Alt = seq<Sym>
  type Rules = seq<seq<Alt>>
  type Bytes = seq<byte>

  // What parsing guarantees: every reference names a rule, and every rule has an alternate.
  ghost predicate Closed(g: Rules) {
    (forall r :: 0 <= r < |g| ==> |g[r]| > 0) && RefsClosed(g)
  }

  ghost predicate RefsClosed(g: Rules) {
    forall r, a :: 0 <= r < |g| && 0 <= a < |g[r]| ==> RefsIn(g[r][a], |g|)
  }

  ghost predicate RefsIn(ss: seq<Sym>, n: nat) {
    forall i :: 0 <= i < |ss| && ss[i].Ref? ==> ss[i].rule < n
  }

  // ---- the language ----

  // The symbols derive w within n expansions.
  ghost predicate Derives(g: Rules, ss: seq<Sym>, w: Bytes, n: nat)
    decreases n, |ss|
  {
    if ss == [] then w == []
    else match ss[0]
      case Cls(c) => w != [] && w[0] in c && Derives(g, ss[1..], w[1..], n)
      case Ref(r) => n > 0 && r < |g| && exists a :: 0 <= a < |g[r]| && Derives(g, g[r][a] + ss[1..], w, n - 1)
  }

  ghost predicate InLang(g: Rules, ss: seq<Sym>, w: Bytes) {
    exists n: nat :: Derives(g, ss, w, n)
  }

  // A reference derives what one of its alternates derives.
  lemma RefLang(g: Rules, r: nat, rest: seq<Sym>, w: Bytes)
    requires r < |g|
    ensures InLang(g, [Ref(r)] + rest, w) <==> exists a :: 0 <= a < |g[r]| && InLang(g, g[r][a] + rest, w)
  {
    var ss := [Ref(r)] + rest;
    assert ss[1..] == rest;
    if InLang(g, ss, w) {
      var n: nat :| Derives(g, ss, w, n);
      var a :| 0 <= a < |g[r]| && Derives(g, g[r][a] + ss[1..], w, n - 1);
      assert InLang(g, g[r][a] + rest, w);
    }
    if a :| 0 <= a < |g[r]| && InLang(g, g[r][a] + rest, w) {
      var n: nat :| Derives(g, g[r][a] + rest, w, n);
      assert Derives(g, ss, w, n + 1);
    }
  }

  // A class consumes one byte of its set.
  lemma ClsLang(g: Rules, c: set<byte>, rest: seq<Sym>, w: Bytes)
    ensures InLang(g, [Cls(c)] + rest, w) <==> w != [] && w[0] in c && InLang(g, rest, w[1..])
  {
    var ss := [Cls(c)] + rest;
    assert ss[1..] == rest;
    if InLang(g, ss, w) {
      var n: nat :| Derives(g, ss, w, n);
      assert Derives(g, rest, w[1..], n);
    }
    if w != [] && w[0] in c && InLang(g, rest, w[1..]) {
      var n: nat :| Derives(g, rest, w[1..], n);
      assert Derives(g, ss, w, n);
    }
  }

  lemma EmptyLang(g: Rules, w: Bytes)
    ensures InLang(g, [], w) <==> w == []
  {
    assert Derives(g, [], w, 0) <==> w == [];
  }

  // ---- stacks ----

  // A position inside an alternate: rule, alternate, symbol.
  datatype Frame = Frame(r: nat, a: nat, s: nat)

  // The top frame is last.
  type Stack = seq<Frame>

  predicate ValidStack(g: Rules, k: Stack) {
    forall i :: 0 <= i < |k| ==> k[i].r < |g| && k[i].a < |g[k[i].r]| && k[i].s <= |g[k[i].r][k[i].a]|
  }

  function Top(k: Stack): Frame
    requires k != []
  {
    k[|k| - 1]
  }

  function TopAlt(g: Rules, k: Stack): Alt
    requires ValidStack(g, k) && k != []
  {
    g[Top(k).r][Top(k).a]
  }

  function Pop(k: Stack): Stack
    requires k != []
  {
    k[..|k| - 1]
  }

  // The stack with its top frame one symbol further.
  function Advanced(k: Stack): (k': Stack)
    requires k != []
    ensures |k'| == |k|
  {
    Pop(k) + [Top(k).(s := Top(k).s + 1)]
  }

  // The symbols still to be matched, top frame first.
  function Rem(g: Rules, k: Stack): seq<Sym>
    requires ValidStack(g, k)
  {
    if k == [] then [] else TopAlt(g, k)[Top(k).s..] + Rem(g, Pop(k))
  }

  // The words a stack still accepts.
  ghost predicate Accepts(g: Rules, k: Stack, u: Bytes) {
    ValidStack(g, k) && InLang(g, Rem(g, k), u)
  }

  // A terminal on top, or nothing left.
  predicate Normal(g: Rules, k: Stack) {
    ValidStack(g, k) && (k != [] ==> Top(k).s < |TopAlt(g, k)| && TopAlt(g, k)[Top(k).s].Cls?)
  }

  ghost predicate AllNormal(g: Rules, st: seq<Stack>) {
    forall i :: 0 <= i < |st| ==> Normal(g, st[i])
  }

  // The words some stack of the set accepts.
  ghost predicate AnyAccepts(g: Rules, st: seq<Stack>, u: Bytes) {
    exists i :: 0 <= i < |st| && Accepts(g, st[i], u)
  }

  lemma AnyAcceptsSnoc(g: Rules, st: seq<Stack>, k: Stack, u: Bytes)
    ensures AnyAccepts(g, st + [k], u) <==> AnyAccepts(g, st, u) || Accepts(g, k, u)
  {
    hide Accepts;
    var next := st + [k];
    assert next[|st|] == k;
    if i :| 0 <= i < |st| && Accepts(g, st[i], u) {
      assert next[i] == st[i];
    }
  }

  lemma RemAdvanced(g: Rules, k: Stack)
    requires ValidStack(g, k) && k != [] && Top(k).s < |TopAlt(g, k)|
    ensures ValidStack(g, Advanced(k)) && Rem(g, k) == [TopAlt(g, k)[Top(k).s]] + Rem(g, Advanced(k))
  {
    var k2 := Advanced(k);
    var alt, s, rest := TopAlt(g, k), Top(k).s, Rem(g, Pop(k));
    assert Pop(k2) == Pop(k) && Top(k2) == Top(k).(s := s + 1);
    AdvancedValid(g, k);
    assert Rem(g, k2) == alt[s + 1..] + rest;
    ConsSlice(alt, s, rest);
  }

  lemma AdvancedValid(g: Rules, k: Stack)
    requires ValidStack(g, k) && k != [] && Top(k).s < |TopAlt(g, k)|
    ensures ValidStack(g, Advanced(k))
  {
  }

  lemma ConsSlice(alt: Alt, s: nat, rest: seq<Sym>)
    requires s < |alt|
    ensures alt[s..] + rest == [alt[s]] + (alt[s + 1..] + rest)
  {
    assert alt[s..] == [alt[s]] + alt[s + 1..];
  }

  // ---- normalization ----

  // gr__set_add: None when the set is full.
  function Add(st: seq<Stack>, k: Stack): (r: Option<seq<Stack>>)
    ensures r.Some? ==> k in r.value && forall j :: j in r.value <==> j in st || j == k
  {
    if k in st then Some(st) else if |st| >= MAX_STACKS then None else Some(st + [k])
  }

  // gr__normalize: brings k to normal form, branching over the alternates of referenced rules,
  // and adds the results to st. None is the fail-safe overflow.
  function Norm(g: Rules, k: Stack, st: seq<Stack>, depth: nat): Option<seq<Stack>>
    requires Closed(g)
    requires ValidStack(g, k) && depth <= MAX_DEPTH
    decreases MAX_DEPTH - depth, 1, |k|
  {
    if k == [] then Add(st, k)
    else if Top(k).s >= |TopAlt(g, k)| then Norm(g, Pop(k), st, depth)
    else match TopAlt(g, k)[Top(k).s]
      case Cls(_) => Add(st, k)
      case Ref(c) => if depth >= MAX_DEPTH then None else NormAlts(g, Advanced(k), c, 0, st, depth)
  }

  // The alternates of rule c from a on.
  function NormAlts(g: Rules, k: Stack, c: nat, a: nat, st: seq<Stack>, depth: nat): Option<seq<Stack>>
    requires Closed(g)
    requires ValidStack(g, k) && depth < MAX_DEPTH && c < |g| && a <= |g[c]|
    decreases MAX_DEPTH - depth, 0, |g[c]| - a
  {
    if a == |g[c]| then Some(st)
    else if |k| >= MAX_DEPTH then None
    else
      match Norm(g, k + [Frame(c, a, 0)], st, depth + 1)
      case None => None
      case Some(next) => NormAlts(g, k, c, a + 1, next, depth)
  }

  // Normalizing loses no word and adds none.
  lemma {:induction false} NormLang(g: Rules, k: Stack, st: seq<Stack>, depth: nat, u: Bytes)
    requires Closed(g)
    requires ValidStack(g, k) && depth <= MAX_DEPTH && Norm(g, k, st, depth).Some?
    ensures AnyAccepts(g, Norm(g, k, st, depth).value, u) <==> AnyAccepts(g, st, u) || Accepts(g, k, u)
    decreases MAX_DEPTH - depth, 1, |k|
  {
    hide Accepts, InLang, Rem;
    if k == [] {
      AddLang(g, st, k, u);
    } else if Top(k).s >= |TopAlt(g, k)| {
      PopLang(g, k, u);
      NormLang(g, Pop(k), st, depth, u);
    } else {
      match TopAlt(g, k)[Top(k).s] {
        case Cls(_) => AddLang(g, st, k, u);
        case Ref(c) =>
          BranchLang(g, k, c, u);
          NormAltsLang(g, Advanced(k), c, 0, st, depth, u);
      }
    }
  }

  // Some alternate of rule c from a on, pushed on k, accepts u.
  ghost predicate Branches(g: Rules, k: Stack, c: nat, a: nat, u: Bytes)
    requires c < |g|
  {
    exists b :: a <= b < |g[c]| && Accepts(g, k + [Frame(c, b, 0)], u)
  }

  lemma {:induction false} NormAltsLang(g: Rules, k: Stack, c: nat, a: nat, st: seq<Stack>, depth: nat, u: Bytes)
    requires Closed(g)
    requires ValidStack(g, k) && depth < MAX_DEPTH && c < |g| && a <= |g[c]|
    requires NormAlts(g, k, c, a, st, depth).Some?
    ensures AnyAccepts(g, NormAlts(g, k, c, a, st, depth).value, u) <==> AnyAccepts(g, st, u) || Branches(g, k, c, a, u)
    decreases MAX_DEPTH - depth, 0, |g[c]| - a
  {
    hide Accepts, AnyAccepts;
    if a < |g[c]| {
      var next := Norm(g, k + [Frame(c, a, 0)], st, depth + 1).value;
      NormLang(g, k + [Frame(c, a, 0)], st, depth + 1, u);
      NormAltsLang(g, k, c, a + 1, next, depth, u);
    }
  }

  lemma AddLang(g: Rules, st: seq<Stack>, k: Stack, u: Bytes)
    requires Add(st, k).Some?
    ensures AnyAccepts(g, Add(st, k).value, u) <==> AnyAccepts(g, st, u) || Accepts(g, k, u)
  {
    hide Accepts;
    if k !in st {
      AnyAcceptsSnoc(g, st, k, u);
    }
  }

  lemma PopLang(g: Rules, k: Stack, u: Bytes)
    requires ValidStack(g, k) && k != [] && Top(k).s >= |TopAlt(g, k)|
    ensures ValidStack(g, Pop(k)) && (Accepts(g, k, u) <==> Accepts(g, Pop(k), u))
  {
    assert TopAlt(g, k)[Top(k).s..] == [];
    assert Rem(g, k) == Rem(g, Pop(k));
  }

  lemma BranchLang(g: Rules, k: Stack, c: nat, u: Bytes)
    requires ValidStack(g, k) && k != [] && Top(k).s < |TopAlt(g, k)|
    requires TopAlt(g, k)[Top(k).s] == Ref(c) && c < |g|
    ensures ValidStack(g, Advanced(k)) && (Accepts(g, k, u) <==> Branches(g, Advanced(k), c, 0, u))
  {
    hide InLang;
    RemAdvanced(g, k);
    var k2 := Advanced(k);
    var rest := Rem(g, k2);
    RefLang(g, c, rest, u);
    forall b | 0 <= b < |g[c]|
      ensures Accepts(g, k2 + [Frame(c, b, 0)], u) <==> InLang(g, g[c][b] + rest, u)
    {
      PushRem(g, k2, c, b);
    }
  }

  lemma PushRem(g: Rules, k: Stack, c: nat, b: nat)
    requires ValidStack(g, k) && c < |g| && b < |g[c]|
    ensures ValidStack(g, k + [Frame(c, b, 0)]) && Rem(g, k + [Frame(c, b, 0)]) == g[c][b] + Rem(g, k)
  {
    var k2 := k + [Frame(c, b, 0)];
    assert Pop(k2) == k && g[c][b][0..] == g[c][b];
  }

  lemma {:induction false} NormNormal(g: Rules, k: Stack, st: seq<Stack>, depth: nat)
    requires Closed(g)
    requires ValidStack(g, k) && depth <= MAX_DEPTH && Norm(g, k, st, depth).Some? && AllNormal(g, st)
    ensures AllNormal(g, Norm(g, k, st, depth).value)
    decreases MAX_DEPTH - depth, 1, |k|
  {
    if k != [] {
      if Top(k).s >= |TopAlt(g, k)| {
        NormNormal(g, Pop(k), st, depth);
      } else if TopAlt(g, k)[Top(k).s].Ref? {
        NormAltsNormal(g, Advanced(k), TopAlt(g, k)[Top(k).s].rule, 0, st, depth);
      }
    }
  }

  lemma {:induction false} NormAltsNormal(g: Rules, k: Stack, c: nat, a: nat, st: seq<Stack>, depth: nat)
    requires Closed(g)
    requires ValidStack(g, k) && depth < MAX_DEPTH && c < |g| && a <= |g[c]| && AllNormal(g, st)
    requires NormAlts(g, k, c, a, st, depth).Some?
    ensures AllNormal(g, NormAlts(g, k, c, a, st, depth).value)
    decreases MAX_DEPTH - depth, 0, |g[c]| - a
  {
    if a < |g[c]| {
      NormNormal(g, k + [Frame(c, a, 0)], st, depth + 1);
      NormAltsNormal(g, k, c, a + 1, Norm(g, k + [Frame(c, a, 0)], st, depth + 1).value, depth);
    }
  }

  // ---- when the walker overflows ----

  // One expansion of a stack: an exhausted alternate is popped, or a reference gives way to one of
  // its rule's alternates, one level deeper.
  ghost predicate Expands(g: Rules, k: Stack, k2: Stack, deeper: bool) {
    && ValidStack(g, k) && k != []
    && var f := k[|k| - 1];
       if f.s == |g[f.r][f.a]| then !deeper && k2 == k[..|k| - 1]
       else deeper && g[f.r][f.a][f.s].Ref? && Branch(g, k, g[f.r][f.a][f.s].rule, k2)
  }

  ghost predicate Branch(g: Rules, k: Stack, c: nat, k2: Stack)
    requires k != []
  {
    var f := k[|k| - 1];
    c < |g| && exists a: nat :: a < |g[c]| && k2 == k[..|k| - 1] + [f.(s := f.s + 1), Frame(c, a, 0)]
  }

  // A reference on top that may not be expanded: 64 levels deep, or on a stack of 64 frames.
  ghost predicate Wall(g: Rules, k: Stack, depth: nat) {
    && ValidStack(g, k) && k != []
    && var f := k[|k| - 1];
       f.s < |g[f.r][f.a]| && g[f.r][f.a][f.s].Ref? && (depth >= 64 || |k| >= 64)
  }

  // Within n expansions of k, itself depth levels deep, there is a wall.
  ghost predicate WallIn(g: Rules, k: Stack, depth: nat, n: nat)
    decreases n
  {
    || Wall(g, k, depth)
    || (n > 0 && exists k1, deeper :: Expands(g, k, k1, deeper) && WallIn(g, k1, if deeper then depth + 1 else depth, n - 1))
  }

  // Some expansion of k would nest more than 64 deep or need more than 64 frames.
  ghost predicate Stuck(g: Rules, k: Stack, depth: nat) {
    exists n: nat :: WallIn(g, k, depth, n)
  }

  // x is what n expansions or fewer make of k, with a terminal or nothing on top.
  ghost predicate FormIn(g: Rules, k: Stack, x: Stack, n: nat)
    decreases n
  {
    || (x == k && Normal(g, k))
    || (n > 0 && exists k1, deeper :: Expands(g, k, k1, deeper) && FormIn(g, k1, x, n - 1))
  }

  ghost predicate FormOf(g: Rules, k: Stack, x: Stack) {
    exists n: nat :: FormIn(g, k, x, n)
  }

  // x is a form of one of the stacks ks.
  ghost predicate FormOfAny(g: Rules, ks: set<Stack>, x: Stack) {
    exists k :: k in ks && FormOf(g, k, x)
  }

  ghost predicate AnyStuck(g: Rules, ks: set<Stack>, depth: nat) {
    exists k :: k in ks && Stuck(g, k, depth)
  }

  ghost function Only(k: Stack): (ks: set<Stack>)
    ensures forall x :: x in ks <==> x == k
  {
    {k}
  }

  // More than 64 different stacks are in st or forms of the stacks ks.
  ghost predicate Crowded(g: Rules, st: seq<Stack>, ks: set<Stack>) {
    exists c: set<Stack> :: |c| > 64 && Crowd(g, st, ks, c)
  }

  ghost predicate Crowd(g: Rules, st: seq<Stack>, ks: set<Stack>, c: set<Stack>) {
    forall x :: x in c ==> x in st || FormOfAny(g, ks, x)
  }

  // Expanding the stacks ks beside st goes too deep, too high, or too wide.
  ghost predicate Overflows(g: Rules, st: seq<Stack>, ks: set<Stack>, depth: nat) {
    AnyStuck(g, ks, depth) || Crowded(g, st, ks)
  }

  const NO_STACKS: seq<Stack> := []

  // st has no stack twice and at most 64 of them.
  ghost predicate Bounded(st: seq<Stack>) {
    |st| <= 64 && forall i, j :: 0 <= i < j < |st| ==> st[i] != st[j]
  }

  // next is st and all forms of the stacks ks.
  ghost predicate Expanded(g: Rules, st: seq<Stack>, ks: set<Stack>, next: seq<Stack>) {
    Bounded(next) && forall x :: x in next <==> x in st || FormOfAny(g, ks, x)
  }

  // What an expansion attempt makes of st, if anything.
  ghost predicate Outcome(g: Rules, st: seq<Stack>, ks: set<Stack>, depth: nat, r: Option<seq<Stack>>) {
    match r
    case None => Overflows(g, st, ks, depth)
    case Some(next) => Expanded(g, st, ks, next) && !AnyStuck(g, ks, depth)
  }

  lemma StuckStep(g: Rules, k: Stack, depth: nat)
    ensures Stuck(g, k, depth) <==>
              || Wall(g, k, depth)
              || exists k1, deeper :: Expands(g, k, k1, deeper) && Stuck(g, k1, if deeper then depth + 1 else depth)
  {
    hide Expands, Wall;
    if Stuck(g, k, depth) && !Wall(g, k, depth) {
      var n: nat :| WallIn(g, k, depth, n);
      var k1, deeper :| Expands(g, k, k1, deeper) && WallIn(g, k1, if deeper then depth + 1 else depth, n - 1);
    }
    if Wall(g, k, depth) {
      assert WallIn(g, k, depth, 0);
    }
    if k1, deeper :| Expands(g, k, k1, deeper) && Stuck(g, k1, if deeper then depth + 1 else depth) {
      var n: nat :| WallIn(g, k1, if deeper then depth + 1 else depth, n);
      assert WallIn(g, k, depth, n + 1);
    }
  }

  lemma FormStep(g: Rules, k: Stack, x: Stack)
    ensures FormOf(g, k, x) <==>
              (x == k && Normal(g, k)) || exists k1, deeper :: Expands(g, k, k1, deeper) && FormOf(g, k1, x)
  {
    hide Expands, Normal;
    if FormOf(g, k, x) && !(x == k && Normal(g, k)) {
      var n: nat :| FormIn(g, k, x, n);
      var k1, deeper :| Expands(g, k, k1, deeper) && FormIn(g, k1, x, n - 1);
    }
    if x == k && Normal(g, k) {
      assert FormIn(g, k, x, 0);
    }
    if k1, deeper :| Expands(g, k, k1, deeper) && FormOf(g, k1, x) {
      var n: nat :| FormIn(g, k1, x, n);
      assert FormIn(g, k, x, n + 1);
    }
  }

  // A stack with a terminal or nothing on top is its own only form.
  lemma NormalForm(g: Rules, k: Stack, depth: nat)
    requires Normal(g, k)
    ensures !Stuck(g, k, depth) && forall x :: FormOf(g, k, x) <==> x == k
  {
    hide Stuck, FormOf;
    StuckStep(g, k, depth);
    forall x
      ensures FormOf(g, k, x) <==> x == k
    {
      FormStep(g, k, x);
    }
  }

  // One whose top alternate is exhausted has the forms of the stack below.
  lemma PoppedForms(g: Rules, k: Stack, depth: nat)
    requires ValidStack(g, k) && k != [] && Top(k).s >= |TopAlt(g, k)|
    ensures Stuck(g, k, depth) <==> Stuck(g, Pop(k), depth)
    ensures forall x :: FormOf(g, k, x) <==> FormOf(g, Pop(k), x)
  {
    hide Stuck, FormOf;
    assert forall k1, deeper :: Expands(g, k, k1, deeper) ==> !deeper && k1 == Pop(k);
    assert Expands(g, k, Pop(k), false);
    StuckStep(g, k, depth);
    forall x
      ensures FormOf(g, k, x) <==> FormOf(g, Pop(k), x)
    {
      FormStep(g, k, x);
    }
  }

  // The stacks that the alternates of rule c from a on make of k.
  ghost function BranchSet(g: Rules, k: Stack, c: nat, a: nat): (ks: set<Stack>)
    requires c < |g| && a <= |g[c]|
    ensures forall x :: x in ks <==> exists b: nat :: a <= b < |g[c]| && x == k + [Frame(c, b, 0)]
  {
    set b: nat | a <= b < |g[c]| :: k + [Frame(c, b, 0)]
  }

  // One with a reference on top has the forms of its branches, unless it is a wall.
  lemma BranchedForms(g: Rules, k: Stack, c: nat, depth: nat)
    requires ValidStack(g, k) && k != [] && Top(k).s < |TopAlt(g, k)| && TopAlt(g, k)[Top(k).s] == Ref(c) && c < |g|
    ensures var ks := BranchSet(g, Advanced(k), c, 0);
            && (Stuck(g, k, depth) <==> depth >= 64 || |k| >= 64 || AnyStuck(g, ks, depth + 1))
            && forall x :: FormOf(g, k, x) <==> FormOfAny(g, ks, x)
  {
    hide Stuck, FormOf, BranchSet, Branch;
    var ks := BranchSet(g, Advanced(k), c, 0);
    forall k1, deeper
      ensures Expands(g, k, k1, deeper) <==> deeper && k1 in ks
    {
      BranchIs(g, k, c, k1);
    }
    StuckStep(g, k, depth);
    if AnyStuck(g, ks, depth + 1) {
      var k1 :| k1 in ks && Stuck(g, k1, depth + 1);
      assert Expands(g, k, k1, true);
    }
    forall x
      ensures FormOf(g, k, x) <==> FormOfAny(g, ks, x)
    {
      FormStep(g, k, x);
      if FormOfAny(g, ks, x) {
        var k1 :| k1 in ks && FormOf(g, k1, x);
        assert Expands(g, k, k1, true);
      }
    }
  }

  lemma BranchIs(g: Rules, k: Stack, c: nat, k1: Stack)
    requires k != [] && c < |g|
    ensures Branch(g, k, c, k1) <==> k1 in BranchSet(g, Advanced(k), c, 0)
  {
    forall b: nat
      ensures k[..|k| - 1] + [Top(k).(s := Top(k).s + 1), Frame(c, b, 0)] == Advanced(k) + [Frame(c, b, 0)]
    {
    }
  }

  // ---- sets of stacks ----

  ghost function Members(st: seq<Stack>): (c: set<Stack>)
    ensures forall x :: x in c <==> x in st
  {
    set x | x in st
  }

  lemma {:induction false} MembersCount(st: seq<Stack>)
    ensures |Members(st)| <= |st| && (Bounded(st) ==> |Members(st)| == |st|)
  {
    if st != [] {
      var front, x := st[..|st| - 1], st[|st| - 1];
      MembersCount(front);
      assert Members(st) == Members(front) + {x};
      assert Bounded(st) ==> Bounded(front) && x !in Members(front);
    }
  }

  lemma {:induction false} SubsetCount(a: set<Stack>, b: set<Stack>)
    requires a <= b
    ensures |a| <= |b|
  {
    if a != {} {
      var x :| x in a;
      SubsetCount(a - {x}, b - {x});
    }
  }

  // The attempt fails if and only if expanding goes too deep, too high, or too wide.
  lemma OutcomeExact(g: Rules, st: seq<Stack>, ks: set<Stack>, depth: nat, r: Option<seq<Stack>>)
    requires Outcome(g, st, ks, depth, r)
    ensures r.None? <==> Overflows(g, st, ks, depth)
  {
    hide FormOfAny, AnyStuck;
    if r.Some? && Crowded(g, st, ks) {
      var c: set<Stack> :| |c| > 64 && Crowd(g, st, ks, c);
      SubsetCount(c, Members(r.value));
      MembersCount(r.value);
    }
  }

  // Two attempts one after the other.
  lemma OutcomeThen(g: Rules, st: seq<Stack>, ks: set<Stack>, more: set<Stack>, depth: nat, r: Option<seq<Stack>>, s: Option<seq<Stack>>)
    requires Outcome(g, st, ks, depth, r) && (if r.None? then s.None? else Outcome(g, r.value, more, depth, s))
    ensures Outcome(g, st, ks + more, depth, s)
  {
    hide FormOf, Stuck, Bounded;
    EitherForm(g, ks, more, depth);
    if r.None? {
      CrowdedMore(g, st, st, ks, ks + more);
    } else if s.None? {
      CrowdedMore(g, r.value, st, more, ks + more);
    }
  }

  lemma EitherForm(g: Rules, ks: set<Stack>, more: set<Stack>, depth: nat)
    ensures forall x :: FormOfAny(g, ks + more, x) <==> FormOfAny(g, ks, x) || FormOfAny(g, more, x)
    ensures AnyStuck(g, ks + more, depth) <==> AnyStuck(g, ks, depth) || AnyStuck(g, more, depth)
  {
    hide FormOf, Stuck;
    if k :| k in ks && Stuck(g, k, depth) {
      assert k in ks + more;
    }
    if k :| k in more && Stuck(g, k, depth) {
      assert k in ks + more;
    }
    forall x
      ensures FormOfAny(g, ks + more, x) <==> FormOfAny(g, ks, x) || FormOfAny(g, more, x)
    {
      if k :| k in ks && FormOf(g, k, x) {
        assert k in ks + more;
      }
      if k :| k in more && FormOf(g, k, x) {
        assert k in ks + more;
      }
    }
  }

  lemma CrowdedMore(g: Rules, st: seq<Stack>, st2: seq<Stack>, ks: set<Stack>, ks2: set<Stack>)
    requires forall x :: x in st || FormOfAny(g, ks, x) ==> x in st2 || FormOfAny(g, ks2, x)
    ensures Crowded(g, st, ks) ==> Crowded(g, st2, ks2)
  {
    hide FormOfAny;
    if Crowded(g, st, ks) {
      var c: set<Stack> :| |c| > 64 && Crowd(g, st, ks, c);
      assert Crowd(g, st2, ks2, c);
    }
  }

  // Stacks with the same forms and walls have the same outcomes.
  lemma OutcomeSame(g: Rules, st: seq<Stack>, ks: set<Stack>, ks2: set<Stack>, depth: nat, depth2: nat, r: Option<seq<Stack>>)
    requires Outcome(g, st, ks2, depth2, r) && (AnyStuck(g, ks, depth) <==> AnyStuck(g, ks2, depth2))
    requires forall x :: FormOfAny(g, ks, x) <==> FormOfAny(g, ks2, x)
    ensures Outcome(g, st, ks, depth, r)
  {
    hide FormOfAny, AnyStuck, Bounded;
    CrowdedMore(g, st, st, ks2, ks);
  }

  lemma OneStack(g: Rules, k: Stack, depth: nat)
    ensures AnyStuck(g, Only(k), depth) <==> Stuck(g, k, depth)
    ensures forall x :: FormOfAny(g, Only(k), x) <==> FormOf(g, k, x)
  {
    hide FormOf, Stuck;
  }

  lemma NoStacks(g: Rules, st: seq<Stack>, ks: set<Stack>, depth: nat)
    requires Bounded(st) && ks == {}
    ensures Outcome(g, st, ks, depth, Some(st))
  {
  }

  // ---- normalization fails exactly on overflow ----

  lemma AddOutcome(g: Rules, st: seq<Stack>, k: Stack, depth: nat)
    requires Normal(g, k) && Bounded(st)
    ensures Outcome(g, st, Only(k), depth, Add(st, k))
  {
    hide FormOf, Stuck, FormOfAny, AnyStuck;
    NormalForm(g, k, depth);
    OneStack(g, k, depth);
    if Add(st, k).None? {
      MembersCount(st);
      var c := Members(st) + Only(k);
      assert |c| > 64 && Crowd(g, st, Only(k), c);
    }
  }

  lemma {:induction false} NormOutcome(g: Rules, k: Stack, st: seq<Stack>, depth: nat)
    requires Closed(g) && ValidStack(g, k) && depth <= MAX_DEPTH && Bounded(st)
    ensures Outcome(g, st, Only(k), depth, Norm(g, k, st, depth))
    decreases MAX_DEPTH - depth, 1, |k|
  {
    hide FormOf, Stuck, FormOfAny, AnyStuck, Outcome, Bounded, BranchSet;
    if k == [] {
      AddOutcome(g, st, k, depth);
    } else if Top(k).s >= |TopAlt(g, k)| {
      NormOutcome(g, Pop(k), st, depth);
      PoppedForms(g, k, depth);
      OneStack(g, k, depth);
      OneStack(g, Pop(k), depth);
      OutcomeSame(g, st, Only(k), Only(Pop(k)), depth, depth, Norm(g, k, st, depth));
    } else {
      match TopAlt(g, k)[Top(k).s] {
        case Cls(_) => AddOutcome(g, st, k, depth);
        case Ref(c) =>
          KnownRef(g, k, c);
          BranchedForms(g, k, c, depth);
          OneStack(g, k, depth);
          if depth < MAX_DEPTH {
            NormAltsOutcome(g, Advanced(k), c, 0, st, depth);
          }
          BranchOutcome(g, k, c, st, depth, Norm(g, k, st, depth));
      }
    }
  }

  lemma KnownRef(g: Rules, k: Stack, c: nat)
    requires Closed(g) && ValidStack(g, k) && k != [] && Top(k).s < |TopAlt(g, k)| && TopAlt(g, k)[Top(k).s] == Ref(c)
    ensures c < |g| && |g[c]| > 0 && ValidStack(g, Advanced(k))
  {
    assert RefsIn(TopAlt(g, k), |g|);
    AdvancedValid(g, k);
  }

  // A wall fails, and what is no wall has the outcome of its branches.
  lemma BranchOutcome(g: Rules, k: Stack, c: nat, st: seq<Stack>, depth: nat, r: Option<seq<Stack>>)
    requires c < |g| && k != [] && Bounded(st)
    requires var ks := BranchSet(g, Advanced(k), c, 0);
             && (AnyStuck(g, Only(k), depth) <==> depth >= 64 || |k| >= 64 || AnyStuck(g, ks, depth + 1))
             && (forall x :: FormOfAny(g, Only(k), x) <==> FormOfAny(g, ks, x))
             && (if depth >= 64 || |k| >= 64 then r.None? else Outcome(g, st, ks, depth + 1, r))
    ensures Outcome(g, st, Only(k), depth, r)
  {
    hide FormOfAny, AnyStuck, Bounded, BranchSet;
    var ks := BranchSet(g, Advanced(k), c, 0);
    if depth < 64 && |k| < 64 {
      OutcomeSame(g, st, Only(k), ks, depth, depth + 1, r);
    }
  }

  lemma {:induction false} NormAltsOutcome(g: Rules, k: Stack, c: nat, a: nat, st: seq<Stack>, depth: nat)
    requires Closed(g) && ValidStack(g, k) && depth < MAX_DEPTH && c < |g| && a <= |g[c]| && Bounded(st)
    ensures var r := NormAlts(g, k, c, a, st, depth);
            if a < |g[c]| && |k| >= 64 then r.None? else Outcome(g, st, BranchSet(g, k, c, a), depth + 1, r)
    decreases MAX_DEPTH - depth, 0, |g[c]| - a
  {
    hide FormOf, Stuck, FormOfAny, AnyStuck, Norm, Outcome;
    if a == |g[c]| {
      assert BranchSet(g, k, c, a) == {};
      NoStacks(g, st, BranchSet(g, k, c, a), depth + 1);
    } else if |k| < 64 {
      var k1 := k + [Frame(c, a, 0)];
      NormOutcome(g, k1, st, depth + 1);
      var r := Norm(g, k1, st, depth + 1);
      if r.Some? {
        OutcomeBounded(g, st, Only(k1), depth + 1, r);
        NormAltsOutcome(g, k, c, a + 1, r.value, depth);
      }
      OutcomeThen(g, st, Only(k1), BranchSet(g, k, c, a + 1), depth + 1, r, NormAlts(g, k, c, a, st, depth));
      assert Only(k1) + BranchSet(g, k, c, a + 1) == BranchSet(g, k, c, a);
    }
  }

  lemma OutcomeExpanded(g: Rules, st: seq<Stack>, ks: set<Stack>, depth: nat, r: Option<seq<Stack>>)
    requires Outcome(g, st, ks, depth, r)
    ensures r.Some? ==> Expanded(g, st, ks, r.value)
  {
  }

  lemma OutcomeBounded(g: Rules, st: seq<Stack>, ks: set<Stack>, depth: nat, r: Option<seq<Stack>>)
    requires Outcome(g, st, ks, depth, r) && r.Some?
    ensures Bounded(r.value)
  {
  }

  // ---- one byte ----

  // The stack can take byte b now.
  predicate Takes(g: Rules, k: Stack, b: byte)
    requires Normal(g, k)
  {
    k != [] && b in TopAlt(g, k)[Top(k).s].bytes
  }

  // The stacks after byte b, from the first i stacks of st. None is overflow.
  function Step(g: Rules, st: seq<Stack>, b: byte, i: nat): Option<seq<Stack>>
    requires Closed(g)
    requires i <= |st| && AllNormal(g, st)
  {
    if i == 0 then Some([]) else
      match Step(g, st, b, i - 1)
      case None => None
      case Some(out) => if Takes(g, st[i - 1], b) then Norm(g, Advanced(st[i - 1]), out, 0) else Some(out)
  }

  lemma StepOver(g: Rules, st: seq<Stack>, b: byte, i: nat)
    requires Closed(g) && i <= |st| && AllNormal(g, st)
    ensures i == 0 ==> Step(g, st, b, i) == Some([])
    ensures i > 0 && Step(g, st, b, i - 1).Some? ==>
              Step(g, st, b, i) == (var out := Step(g, st, b, i - 1).value;
                                    if Takes(g, st[i - 1], b) then Norm(g, Advanced(st[i - 1]), out, 0) else Some(out))
  {
    hide Takes, Norm, Advanced;
  }

  lemma TakesLang(g: Rules, k: Stack, b: byte, u: Bytes)
    requires Normal(g, k)
    ensures Takes(g, k, b) ==> (Accepts(g, k, [b] + u) <==> Accepts(g, Advanced(k), u))
    ensures !Takes(g, k, b) ==> !Accepts(g, k, [b] + u)
  {
    hide InLang;
    assert ([b] + u)[1..] == u;
    if k == [] {
      EmptyLang(g, [b] + u);
    } else {
      RemAdvanced(g, k);
      ClsLang(g, TopAlt(g, k)[Top(k).s].bytes, Rem(g, Advanced(k)), [b] + u);
    }
  }

  // The set after byte b accepts exactly the words that b continues to in the set before.
  lemma {:induction false} StepLang(g: Rules, st: seq<Stack>, b: byte, i: nat, u: Bytes)
    requires Closed(g)
    requires i <= |st| && AllNormal(g, st) && Step(g, st, b, i).Some?
    ensures AllNormal(g, Step(g, st, b, i).value)
    ensures AnyAccepts(g, Step(g, st, b, i).value, u) <==> exists j :: 0 <= j < i && Accepts(g, st[j], [b] + u)
  {
    hide Accepts, Norm;
    if i > 0 {
      StepLang(g, st, b, i - 1, u);
      TakesLang(g, st[i - 1], b, u);
      if Takes(g, st[i - 1], b) {
        RemAdvanced(g, st[i - 1]);
        NormLang(g, Advanced(st[i - 1]), Step(g, st, b, i - 1).value, 0, u);
        NormNormal(g, Advanced(st[i - 1]), Step(g, st, b, i - 1).value, 0);
      }
    }
  }

  // Normalizing always leaves at least one more way on.
  lemma {:induction false} NormSome(g: Rules, k: Stack, st: seq<Stack>, depth: nat)
    requires Closed(g)
    requires ValidStack(g, k) && depth <= MAX_DEPTH && Norm(g, k, st, depth).Some?
    ensures Norm(g, k, st, depth).value != []
    decreases MAX_DEPTH - depth, 1, |k|
  {
    if k != [] {
      if Top(k).s >= |TopAlt(g, k)| {
        NormSome(g, Pop(k), st, depth);
      } else if TopAlt(g, k)[Top(k).s].Ref? {
        NormAltsSome(g, Advanced(k), TopAlt(g, k)[Top(k).s].rule, 0, st, depth);
      }
    }
  }

  lemma {:induction false} NormAltsSome(g: Rules, k: Stack, c: nat, a: nat, st: seq<Stack>, depth: nat)
    requires Closed(g)
    requires ValidStack(g, k) && depth < MAX_DEPTH && c < |g| && a <= |g[c]|
    requires NormAlts(g, k, c, a, st, depth).Some? && (st != [] || a < |g[c]|)
    ensures NormAlts(g, k, c, a, st, depth).value != []
    decreases MAX_DEPTH - depth, 0, |g[c]| - a
  {
    if a < |g[c]| {
      NormSome(g, k + [Frame(c, a, 0)], st, depth + 1);
      NormAltsSome(g, k, c, a + 1, Norm(g, k + [Frame(c, a, 0)], st, depth + 1).value, depth);
    }
  }

  // A step leaves stacks exactly when some stack took the byte.
  lemma {:induction false} StepSome(g: Rules, st: seq<Stack>, b: byte, i: nat)
    requires Closed(g)
    requires i <= |st| && AllNormal(g, st) && Step(g, st, b, i).Some?
    ensures Step(g, st, b, i).value != [] <==> exists j :: 0 <= j < i && Takes(g, st[j], b)
  {
    hide Norm;
    if i > 0 {
      StepSome(g, st, b, i - 1);
      if Takes(g, st[i - 1], b) {
        RemAdvanced(g, st[i - 1]);
        NormSome(g, Advanced(st[i - 1]), Step(g, st, b, i - 1).value, 0);
      }
    }
  }

  // The stacks that byte b makes of the first i stacks of st, before they are expanded.
  ghost function ByteSet(g: Rules, st: seq<Stack>, b: byte, i: nat): set<Stack>
    requires i <= |st| && AllNormal(g, st)
  {
    set j: nat | j < i && st[j] != [] && b in TopAlt(g, st[j])[Top(st[j]).s].bytes :: Advanced(st[j])
  }

  // A step overflows if and only if expanding what the byte makes of the stacks does.
  lemma {:induction false} StepOutcome(g: Rules, st: seq<Stack>, b: byte, i: nat)
    requires Closed(g) && i <= |st| && AllNormal(g, st)
    ensures Outcome(g, NO_STACKS, ByteSet(g, st, b, i), 0, Step(g, st, b, i))
  {
    hide FormOf, Stuck, FormOfAny, AnyStuck, Norm, Outcome, Step;
    StepOver(g, st, b, i);
    if i == 0 {
      NoStacks(g, NO_STACKS, ByteSet(g, st, b, 0), 0);
    } else {
      StepOutcome(g, st, b, i - 1);
      var r, ks := Step(g, st, b, i - 1), ByteSet(g, st, b, i - 1);
      if r.None? {
        StepNone(g, st, b, i - 1, i);
        NoMore(g, NO_STACKS, ks, ByteSet(g, st, b, i), 0);
      } else if Takes(g, st[i - 1], b) {
        var k := Advanced(st[i - 1]);
        RemAdvanced(g, st[i - 1]);
        OutcomeBounded(g, NO_STACKS, ks, 0, r);
        NormOutcome(g, k, r.value, 0);
        OutcomeThen(g, NO_STACKS, ks, Only(k), 0, r, Step(g, st, b, i));
        assert ks + Only(k) == ByteSet(g, st, b, i);
      } else {
        assert ks == ByteSet(g, st, b, i);
      }
    }
  }

  // More stacks overflow, too.
  lemma NoMore(g: Rules, st: seq<Stack>, ks: set<Stack>, more: set<Stack>, depth: nat)
    requires Outcome(g, st, ks, depth, None) && ks <= more
    ensures Outcome(g, st, more, depth, None)
  {
    hide FormOf, Stuck;
    OutcomeThen(g, st, ks, more, depth, None, None);
    assert ks + more == more;
  }

  // ---- the initial set ----

  // The stacks of the first a alternates of the root, before they are expanded.
  ghost function RootSet(g: Rules, root: nat, a: nat): set<Stack> {
    set b: nat | b < a :: [Frame(root, b, 0)]
  }

  lemma {:induction false} InitOutcome(g: Rules, root: nat, a: nat)
    requires Closed(g) && root < |g| && a <= |g[root]|
    ensures Outcome(g, NO_STACKS, RootSet(g, root, a), 0, Init(g, root, a))
  {
    hide FormOf, Stuck, FormOfAny, AnyStuck, Norm, Outcome;
    if a == 0 {
      NoStacks(g, NO_STACKS, RootSet(g, root, 0), 0);
    } else {
      InitOutcome(g, root, a - 1);
      var r, ks, k := Init(g, root, a - 1), RootSet(g, root, a - 1), [Frame(root, a - 1, 0)];
      assert ks + Only(k) == RootSet(g, root, a);
      if r.Some? {
        OutcomeBounded(g, NO_STACKS, ks, 0, r);
        NormOutcome(g, k, r.value, 0);
      }
      OutcomeThen(g, NO_STACKS, ks, Only(k), 0, r, Init(g, root, a));
    }
  }

  // The stacks of the first a alternates of the root.
  function Init(g: Rules, root: nat, a: nat): Option<seq<Stack>>
    requires Closed(g)
    requires root < |g| && a <= |g[root]|
  {
    if a == 0 then Some([]) else
      match Init(g, root, a - 1)
      case None => None
      case Some(st) => Norm(g, [Frame(root, a - 1, 0)], st, 0)
  }

  lemma {:induction false} InitLang(g: Rules, root: nat, a: nat, u: Bytes)
    requires Closed(g) && root < |g| && a <= |g[root]| && Init(g, root, a).Some?
    ensures AllNormal(g, Init(g, root, a).value) && (a > 0 ==> Init(g, root, a).value != [])
    ensures AnyAccepts(g, Init(g, root, a).value, u) <==> exists b :: 0 <= b < a && InLang(g, g[root][b], u)
  {
    hide Norm, InLang;
    if a > 0 {
      var k, st := [Frame(root, a - 1, 0)], Init(g, root, a - 1).value;
      InitLang(g, root, a - 1, u);
      NormLang(g, k, st, 0, u);
      NormNormal(g, k, st, 0);
      NormSome(g, k, st, 0);
      PushRem(g, [], root, a - 1);
      assert [] + k == k && g[root][a - 1] + [] == g[root][a - 1];
    }
  }

  // The initial set accepts the language of the root rule.
  lemma InitAccepts(g: Rules, root: nat, u: Bytes)
    requires Closed(g) && root < |g| && Init(g, root, |g[root]|).Some?
    ensures AnyAccepts(g, Init(g, root, |g[root]|).value, u) <==> InLang(g, [Ref(root)], u)
  {
    hide InLang, AnyAccepts, Init;
    InitLang(g, root, |g[root]|, u);
    RefLang(g, root, [], u);
    assert [Ref(root)] + [] == [Ref(root)];
    assert forall b :: 0 <= b < |g[root]| ==> g[root][b] + [] == g[root][b];
  }

  // ---- admissible bytes ----

  // The bytes the first i stacks can take.
  function Mask(g: Rules, st: seq<Stack>, i: nat): set<byte>
    requires i <= |st| && AllNormal(g, st)
  {
    if i == 0 then {}
    else if st[i - 1] == [] then Mask(g, st, i - 1)
    else Mask(g, st, i - 1) + TopAlt(g, st[i - 1])[Top(st[i - 1]).s].bytes
  }

  lemma {:induction false} MaskTakes(g: Rules, st: seq<Stack>, i: nat, b: byte)
    requires i <= |st| && AllNormal(g, st)
    ensures b in Mask(g, st, i) <==> exists j :: 0 <= j < i && Takes(g, st[j], b)
  {
    if i > 0 {
      MaskTakes(g, st, i - 1, b);
    }
  }

  // The set after byte b.
  function Next(g: Rules, st: seq<Stack>, b: byte): (r: Option<seq<Stack>>)
    requires Closed(g) && AllNormal(g, st)
    ensures r.Some? ==> AllNormal(g, r.value)
  {
    if Step(g, st, b, |st|).Some? then
      StepLang(g, st, b, |st|, []);
      Step(g, st, b, |st|)
    else None
  }

  // The parse may stop exactly when an empty stack is present, and a word still accepted begins
  // with an admissible byte.
  lemma MaskLang(g: Rules, st: seq<Stack>, u: Bytes)
    requires Closed(g) && AllNormal(g, st)
    ensures AnyAccepts(g, st, []) <==> [] in st
    ensures AnyAccepts(g, st, u) && u != [] ==> u[0] in Mask(g, st, |st|)
  {
    hide InLang;
    if i :| 0 <= i < |st| && Accepts(g, st[i], []) {
      if st[i] != [] {
        RemAdvanced(g, st[i]);
        ClsLang(g, TopAlt(g, st[i])[Top(st[i]).s].bytes, Rem(g, Advanced(st[i])), []);
      }
    }
    if [] in st {
      var i :| 0 <= i < |st| && st[i] == [];
      EmptyLang(g, []);
      assert Accepts(g, st[i], []);
    }
    if u != [] && AnyAccepts(g, st, u) {
      var i :| 0 <= i < |st| && Accepts(g, st[i], u);
      assert [u[0]] + u[1..] == u;
      TakesLang(g, st[i], u[0], u[1..]);
      MaskTakes(g, st, |st|, u[0]);
    }
  }

  // ---- forced spans ----

  // The smallest byte of m from b on, 256 if none.
  function First(m: set<byte>, b: nat): (r: nat)
    requires b <= 256
    ensures b <= r <= 256 && (r < 256 ==> r in m) && forall x: nat :: b <= x < r ==> x !in m
    decreases 256 - b
  {
    if b == 256 || b in m then b else First(m, b + 1)
  }

  lemma FirstFound(m: set<byte>)
    requires m != {}
    ensures First(m, 0) < 256
  {
    var x :| x in m;
  }

  // The stack set after the bytes w; None once it overflows or a byte is refused.
  function Run(g: Rules, st: seq<Stack>, w: Bytes): Option<seq<Stack>>
    requires Closed(g) && AllNormal(g, st)
    decreases |w|
  {
    if w == [] then Some(st) else
      match Next(g, st, w[0])
      case None => None
      case Some(next) => if next == [] then None else Run(g, next, w[1..])
  }

  // What an unrolled step of the forced span is.
  lemma ForcedStep(g: Rules, st: seq<Stack>, max: nat, out: Bytes)
    requires Closed(g) && AllNormal(g, st) && max > 0
    ensures var m := Mask(g, st, |st|);
            var b := First(m, 0);
            if |m| != 1 || [] in st || b == 256 || Next(g, st, b).None? || Next(g, st, b).value == [] then
              out + Forced(g, st, max) == out
            else
              AllNormal(g, Next(g, st, b).value)
              && out + Forced(g, st, max) == (out + [b]) + Forced(g, Next(g, st, b).value, max - 1)
  {
    hide Mask, AllNormal, First;
  }

  // gr_forced: the bytes legal one at a time, up to max of them.
  function Forced(g: Rules, st: seq<Stack>, max: nat): (out: Bytes)
    requires Closed(g) && AllNormal(g, st)
    ensures |out| <= max
    decreases max
  {
    var b := First(Mask(g, st, |st|), 0);
    if max == 0 || |Mask(g, st, |st|)| != 1 || [] in st || b == 256 then [] else
      match Next(g, st, b)
      case None => []
      case Some(next) => if next == [] then [] else [b] + Forced(g, next, max - 1)
  }

  lemma OnlyByte(m: set<byte>, b: byte, c: byte)
    requires |m| == 1 && b in m && c in m
    ensures b == c
  {
    var rest := m - {b};
    assert |rest| == 0;
    assert c == b || c in rest;
  }

  // Completeness: every word still accepted begins with the forced span.
  lemma {:induction false} ForcedIsPrefix(g: Rules, st: seq<Stack>, max: nat, u: Bytes)
    requires Closed(g) && AllNormal(g, st) && AnyAccepts(g, st, u)
    ensures Forced(g, st, max) <= u
    decreases max
  {
    hide Accepts, AnyAccepts, AllNormal, Norm, Step, Mask, Next;
    var b := First(Mask(g, st, |st|), 0);
    if Forced(g, st, max) != [] {
      OneWayOn(g, st, b, u);
      ForcedIsPrefix(g, Next(g, st, b).value, max - 1, u[1..]);
    }
  }

  // With one admissible byte b and no end, an accepted word begins with b, and the next set
  // accepts the rest.
  lemma OneWayOn(g: Rules, st: seq<Stack>, b: byte, u: Bytes)
    requires Closed(g) && AllNormal(g, st) && AnyAccepts(g, st, u)
    requires |Mask(g, st, |st|)| == 1 && b in Mask(g, st, |st|) && [] !in st && Next(g, st, b).Some?
    ensures u != [] && u[0] == b && AllNormal(g, Next(g, st, b).value)
    ensures AnyAccepts(g, Next(g, st, b).value, u[1..])
  {
    hide Accepts, Normal, Norm, Step;
    MaskLang(g, st, u);
    OnlyByte(Mask(g, st, |st|), b, u[0]);
    assert [b] + u[1..] == u;
    StepLang(g, st, b, |st|, u[1..]);
  }

  // The walker stops extending a span only for a reason: the next byte is not unique, the parse
  // may end here, or the one legal byte overflows the stack set.
  ghost predicate Undecided(g: Rules, st: seq<Stack>)
    requires Closed(g) && AllNormal(g, st)
  {
    || |Mask(g, st, |st|)| != 1
    || [] in st
    || exists b: byte :: b in Mask(g, st, |st|) && Next(g, st, b).None?
  }

  lemma {:induction false} RunNormal(g: Rules, st: seq<Stack>, w: Bytes)
    requires Closed(g) && AllNormal(g, st) && Run(g, st, w).Some?
    ensures AllNormal(g, Run(g, st, w).value)
    decreases |w|
  {
    hide Next, AllNormal;
    if w != [] {
      RunNormal(g, Next(g, st, w[0]).value, w[1..]);
    }
  }

  // Maximality: a span shorter than asked for ends where the walker is undecided.
  lemma {:induction false} ForcedIsMaximal(g: Rules, st: seq<Stack>, max: nat)
    requires Closed(g) && AllNormal(g, st)
    ensures var out := Forced(g, st, max);
            && Run(g, st, out).Some? && AllNormal(g, Run(g, st, out).value)
            && (|out| < max ==> Undecided(g, Run(g, st, out).value))
    decreases max
  {
    hide Norm, AllNormal, Step, Takes, Mask;
    var m := Mask(g, st, |st|);
    var b := First(m, 0);
    if |m| == 1 {
      FirstFound(m);
    }
    if max > 0 && |m| == 1 && [] !in st && Next(g, st, b).Some? {
      StepSome(g, st, b, |st|);
      MaskTakes(g, st, |st|, b);
      var next := Next(g, st, b).value;
      ForcedIsMaximal(g, next, max - 1);
      var out := Forced(g, st, max);
      assert out[0] == b && out[1..] == Forced(g, next, max - 1);
    }
  }

  // ---- the walker ----

  // The set st accepts exactly the words that w continues to in the language of the root.
  ghost predicate Tracks(g: Rules, root: nat, st: seq<Stack>, w: Bytes) {
    forall u: Bytes :: AnyAccepts(g, st, u) <==> InLang(g, [Ref(root)], w + u)
  }

  // Every word the language goes on with begins with the forced span.
  lemma TrackedForced(g: Rules, root: nat, st: seq<Stack>, w: Bytes, max: nat)
    requires Closed(g) && AllNormal(g, st) && Tracks(g, root, st, w)
    ensures forall u: Bytes :: InLang(g, [Ref(root)], w + u) ==> Forced(g, st, max) <= u
  {
    hide InLang, AnyAccepts, AllNormal, Forced;
    forall u: Bytes | InLang(g, [Ref(root)], w + u)
      ensures Forced(g, st, max) <= u
    {
      assert AnyAccepts(g, st, u);
      ForcedIsPrefix(g, st, max, u);
    }
  }

  lemma TracksInit(g: Rules, root: nat)
    requires Closed(g) && root < |g| && Init(g, root, |g[root]|).Some?
    ensures Tracks(g, root, Init(g, root, |g[root]|).value, [])
    ensures AllNormal(g, Init(g, root, |g[root]|).value) && Init(g, root, |g[root]|).value != []
  {
    hide AnyAccepts, InLang, Init;
    InitLang(g, root, |g[root]|, []);
    forall u: Bytes
      ensures AnyAccepts(g, Init(g, root, |g[root]|).value, u) <==> InLang(g, [Ref(root)], [] + u)
    {
      InitAccepts(g, root, u);
      assert [] + u == u;
    }
  }

  lemma TracksStep(g: Rules, root: nat, st: seq<Stack>, w: Bytes, b: byte)
    requires Closed(g) && AllNormal(g, st) && Tracks(g, root, st, w) && Step(g, st, b, |st|).Some?
    ensures AllNormal(g, Step(g, st, b, |st|).value)
    ensures Tracks(g, root, Step(g, st, b, |st|).value, w + [b])
  {
    hide Accepts, InLang, Step, AllNormal;
    StepLang(g, st, b, |st|, []);
    var next := Step(g, st, b, |st|).value;
    forall u: Bytes
      ensures AnyAccepts(g, next, u) <==> InLang(g, [Ref(root)], (w + [b]) + u)
    {
      StepLang(g, st, b, |st|, u);
      assert w + ([b] + u) == (w + [b]) + u;
      assert AnyAccepts(g, st, [b] + u) <==> InLang(g, [Ref(root)], w + ([b] + u));
    }
  }

  // A refused byte leads to no word of the language.
  lemma RefusedByte(g: Rules, root: nat, st: seq<Stack>, w: Bytes, b: byte, u: Bytes)
    requires Closed(g) && AllNormal(g, st) && Tracks(g, root, st, w) && Step(g, st, b, |st|) == Some([])
    ensures !InLang(g, [Ref(root)], w + [b] + u)
  {
    hide InLang, Step, AllNormal;
    TracksStep(g, root, st, w, b);
    assert !AnyAccepts(g, [], u);
  }

  lemma {:induction false} InitNone(g: Rules, root: nat, a: nat, b: nat)
    requires Closed(g) && root < |g| && a <= b <= |g[root]| && Init(g, root, a).None?
    ensures Init(g, root, b).None?
    decreases b
  {
    if a < b {
      InitNone(g, root, a, b - 1);
    }
  }

  lemma {:induction false} StepNone(g: Rules, st: seq<Stack>, b: byte, i: nat, j: nat)
    requires Closed(g) && AllNormal(g, st) && i <= j <= |st| && Step(g, st, b, i).None?
    ensures Step(g, st, b, j).None?
    decreases j
  {
    if i < j {
      StepNone(g, st, b, i, j - 1);
    }
  }

  lemma NextIsStep(g: Rules, st: seq<Stack>, b: byte)
    requires Closed(g) && AllNormal(g, st)
    ensures Next(g, st, b) == Step(g, st, b, |st|)
  {
    if Step(g, st, b, |st|).Some? {
      StepLang(g, st, b, |st|, []);
    }
  }

  // The walker's state: its stack set, and whether it is still on.
  class GrState {
    const g: Rules
    const root: nat
    var st: seq<Stack>
    var alive: bool
    ghost var consumed: Bytes

    ghost predicate Valid()
      reads this
    {
      && Closed(g) && root < |g|
      && (alive ==> AllNormal(g, st) && st != [] && Tracks(g, root, st, consumed))
    }

    // gr_state_init.
    constructor (g: Rules, root: nat)
      requires Closed(g) && root < |g|
      ensures Valid() && this.g == g && this.root == root && consumed == []
      ensures alive == Init(g, root, |g[root]|).Some?
      ensures alive <==> !Overflows(g, NO_STACKS, RootSet(g, root, |g[root]|), 0)
      ensures alive ==> Expanded(g, NO_STACKS, RootSet(g, root, |g[root]|), st)
    {
      this.g, this.root := g, root;
      st, alive, consumed := [], true, [];
      new;
      hide Norm, Tracks, Outcome, Overflows, Expanded, RootSet;
      InitOutcome(g, root, |g[root]|);
      OutcomeExact(g, NO_STACKS, RootSet(g, root, |g[root]|), 0, Init(g, root, |g[root]|));
      OutcomeExpanded(g, NO_STACKS, RootSet(g, root, |g[root]|), 0, Init(g, root, |g[root]|));
      for a := 0 to |g[root]|
        invariant alive && this.g == g && this.root == root && consumed == [] && Init(g, root, a) == Some(st)
      {
        assert ValidStack(g, [Frame(root, a, 0)]);
        var ok := Normalize([Frame(root, a, 0)], this, 0);
        if !ok {
          InitNone(g, root, a + 1, |g[root]|);
          alive := false;
          return;
        }
      }
      TracksInit(g, root);
      alive := |st| != 0;
    }

    // gr__normalize: pops exhausted alternates in place, then adds or branches.
    method Normalize(stack: Stack, out: GrState, depth: nat) returns (ok: bool)
      requires Closed(g) && ValidStack(g, stack) && depth <= MAX_DEPTH
      modifies out`st
      ensures ok == Norm(g, stack, old(out.st), depth).Some?
      ensures ok ==> out.st == Norm(g, stack, old(out.st), depth).value
      ensures Bounded(old(out.st)) ==> (ok <==> !Overflows(g, old(out.st), Only(stack), depth))
      ensures Bounded(old(out.st)) && ok ==> Expanded(g, old(out.st), Only(stack), out.st)
      decreases MAX_DEPTH - depth
    {
      hide AllNormal, Tracks, Bounded, Overflows, Expanded, Only, Outcome;
      if Bounded(out.st) {
        NormOutcome(g, stack, out.st, depth);
        OutcomeExact(g, out.st, Only(stack), depth, Norm(g, stack, out.st, depth));
        OutcomeExpanded(g, out.st, Only(stack), depth, Norm(g, stack, out.st, depth));
      }
      var k := stack;
      while true
        invariant ValidStack(g, k) && out.st == old(out.st)
        invariant Norm(g, stack, old(out.st), depth) == Norm(g, k, old(out.st), depth)
        decreases |k|
      {
        if k == [] {
          ok := SetAdd(out, k);
          return;
        }
        var alt := TopAlt(g, k);
        if Top(k).s >= |alt| {
          k := Pop(k);
          continue;
        }
        match alt[Top(k).s] {
          case Cls(_) =>
            ok := SetAdd(out, k);
            return;
          case Ref(c) =>
            if depth >= MAX_DEPTH {
              return false;
            }
            k := Advanced(k);
            ok := NormalizeAlts(k, c, out, depth);
            return;
        }
      }
    }

    // The branch over the alternates of rule c.
    method NormalizeAlts(k: Stack, c: nat, out: GrState, depth: nat) returns (ok: bool)
      requires Closed(g) && ValidStack(g, k) && depth < MAX_DEPTH && c < |g|
      modifies out`st
      ensures ok == NormAlts(g, k, c, 0, old(out.st), depth).Some?
      ensures ok ==> out.st == NormAlts(g, k, c, 0, old(out.st), depth).value
      decreases MAX_DEPTH - depth, 0
    {
      hide AllNormal, Tracks, Norm;
      for a := 0 to |g[c]|
        invariant NormAlts(g, k, c, 0, old(out.st), depth) == NormAlts(g, k, c, a, out.st, depth)
      {
        if |k| >= MAX_DEPTH {
          return false;
        }
        var pushed := k + [Frame(c, a, 0)];
        ok := Normalize(pushed, out, depth + 1);
        if !ok {
          return;
        }
      }
      ok := true;
    }

    // gr__set_add.
    method SetAdd(out: GrState, k: Stack) returns (ok: bool)
      modifies out`st
      ensures ok == Add(old(out.st), k).Some? && (ok ==> out.st == Add(old(out.st), k).value)
    {
      for i := 0 to |out.st|
        invariant forall j :: 0 <= j < i ==> out.st[j] != k
      {
        if out.st[i] == k {
          return true;
        }
      }
      if |out.st| >= MAX_STACKS {
        return false;
      }
      out.st := out.st + [k];
      ok := true;
    }

    // gr_accept: 1 if the byte was consumed, 0 if no stack takes it (nothing changes), -1 if the
    // walker is or goes off.
    method Accept(b: byte) returns (r: int)
      requires Valid()
      modifies this
      ensures Valid() && r in {-1, 0, 1}
      ensures r == -1 <==> !alive
      ensures !old(alive) ==> !alive && st == old(st) && consumed == old(consumed)
      ensures old(alive) ==> old(AllNormal(g, st)) && (r == -1 <==> Step(g, old(st), b, |old(st)|).None?)
      ensures old(alive) ==> (r == -1 <==> Overflows(g, NO_STACKS, ByteSet(g, old(st), b, |old(st)|), 0))
      ensures r == 1 ==> Expanded(g, NO_STACKS, ByteSet(g, old(st), b, |old(st)|), st)
      ensures r == 1 ==> consumed == old(consumed) + [b] && Step(g, old(st), b, |old(st)|) == Some(st)
      ensures r == 0 ==> st == old(st) && consumed == old(consumed) && Step(g, old(st), b, |old(st)|) == Some([])
                         && forall u: Bytes :: !InLang(g, [Ref(root)], consumed + [b] + u)
    {
      hide Tracks, Norm, InLang, Step, Outcome, Overflows, Expanded, ByteSet;
      if !alive {
        return -1;
      }
      StepOutcome(g, st, b, |st|);
      OutcomeExact(g, NO_STACKS, ByteSet(g, st, b, |st|), 0, Step(g, st, b, |st|));
      OutcomeExpanded(g, NO_STACKS, ByteSet(g, st, b, |st|), 0, Step(g, st, b, |st|));
      var out := new GrState.Empty(g, root);
      StepOver(g, st, b, 0);
      for i := 0 to |st|
        invariant alive && st == old(st) && consumed == old(consumed) && fresh(out)
        invariant Step(g, st, b, i) == Some(out.st)
      {
        StepOver(g, st, b, i + 1);
        var k := st[i];
        if k == [] || b !in TopAlt(g, k)[Top(k).s].bytes {
          continue;
        }
        RemAdvanced(g, k);
        var ok := Normalize(Advanced(k), out, 0);
        if !ok {
          StepNone(g, st, b, i + 1, |st|);
          alive := false;
          return -1;
        }
      }
      TracksStep(g, root, st, consumed, b);
      if |out.st| == 0 {
        forall u: Bytes
          ensures !InLang(g, [Ref(root)], consumed + [b] + u)
        {
          RefusedByte(g, root, st, consumed, b, u);
        }
        return 0;
      }
      st := out.st;
      consumed := consumed + [b];
      r := 1;
    }

    constructor Empty(g: Rules, root: nat)
      ensures this.g == g && this.root == root && st == []
    {
      this.g, this.root := g, root;
      st := [];
    }

    // A copy of the live walker s.
    constructor Copy(s: GrState)
      requires s.Valid() && s.alive
      ensures Valid() && alive && g == s.g && root == s.root && st == s.st && consumed == s.consumed
    {
      g, root := s.g, s.root;
      st, alive, consumed := s.st, s.alive, s.consumed;
    }

    // gr_admissible: the bytes legal now, and whether the parse may end here, that is, whether
    // what was consumed is itself a word of the language.
    method Admissible() returns (mask: set<byte>, canEnd: bool)
      requires Valid() && alive
      ensures mask == Mask(g, st, |st|) && canEnd == ([] in st)
      ensures canEnd <==> InLang(g, [Ref(root)], consumed)
      ensures forall u: Bytes :: u != [] && InLang(g, [Ref(root)], consumed + u) ==> u[0] in mask
    {
      hide InLang, AnyAccepts;
      mask, canEnd := {}, false;
      for i := 0 to |st|
        invariant mask == Mask(g, st, i) && canEnd == ([] in st[..i])
      {
        var k := st[i];
        if k == [] {
          canEnd := true;
        } else {
          mask := mask + TopAlt(g, k)[Top(k).s].bytes;
        }
      }
      assert st[..|st|] == st;
      MaskLang(g, st, []);
      assert consumed + [] == consumed;
      forall u: Bytes | u != [] && InLang(g, [Ref(root)], consumed + u)
        ensures u[0] in mask
      {
        MaskLang(g, st, u);
      }
    }

    // gr_forced: every word of the language that continues what was consumed continues with out.
    method ForcedSpan(max: nat) returns (out: Bytes)
      requires Valid()
      ensures !alive ==> out == []
      ensures alive ==> AllNormal(g, st) && out == Forced(g, st, max)
      ensures alive ==> forall u: Bytes :: InLang(g, [Ref(root)], consumed + u) ==> out <= u
    {
      hide InLang, AnyAccepts, AllNormal, Step, Next, Mask, Tracks, Forced;
      out := [];
      if !alive {
        return;
      }
      TrackedForced(g, root, st, consumed, max);
      var cp := new GrState.Copy(this);
      assert Forced(g, st, max) == [] + Forced(g, st, max);
      while |out| < max
        invariant cp.Valid() && cp.alive && cp.g == g && fresh(cp) && |out| <= max
        invariant Forced(g, st, max) == out + Forced(g, cp.st, max - |out|)
        decreases max - |out|
      {
        ForcedStep(g, cp.st, max - |out|, out);
        var m, end := cp.Admissible();
        if |m| != 1 || end {
          break;
        }
        var b := First(m, 0);
        if b == 256 {
          break;
        }
        ghost var was := cp.st;
        var r := cp.Accept(b);
        NextIsStep(g, was, b);
        if r != 1 {
          break;
        }
        out := out + [b];
      }
    }
  }
}
