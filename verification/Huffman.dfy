/** The canonical Huffman row codec of c/codec_row_huff.h, from code lengths to coded rows. */
module Huffman {
  import opened Arith
  import opened Bits
  import opened BitIO
  import opened Canonical

  const MAXLEN: nat := 15

  // Reverses the low len bits of x.
  method BitRev(x: nat, len: nat) returns (r: nat)
    ensures r < Pow2(len) && ToBits(r, len) == MsbBits(x, len)
  {
    r := 0;
    var y := x;
    for i := 0 to len
      invariant r < Pow2(i) && y == Shr(x, i)
      invariant ToBits(r, i) == Reverse(ToBits(x, i))
    {
      ToBitsSnoc(x, i);
      ReverseSnoc(ToBits(x, i), y % 2 == 1);
      r, y := 2 * r + y % 2, y / 2;
      ShrOne(x, i);
    }
    MsbIsReverse(x, len);
  }

  lemma {:induction false} ShrOne(x: nat, i: nat)
    ensures Shr(x, i + 1) == Shr(x, i) / 2
  {
    if i > 0 {
      ShrOne(x / 2, i - 1);
    }
  }

  lemma {:induction false} ToBitsSnoc(x: nat, i: nat)
    ensures ToBits(x, i + 1) == ToBits(x, i) + [Shr(x, i) % 2 == 1]
  {
    if i > 0 {
      ToBitsSnoc(x / 2, i - 1);
    }
  }

  lemma {:induction false} MsbIsReverse(x: nat, n: nat)
    ensures MsbBits(x, n) == Reverse(ToBits(x, n))
  {
    if n > 0 {
      MsbIsReverse(x / 2, n - 1);
      assert ToBits(x, n)[1..] == ToBits(x / 2, n - 1);
    }
  }

  // ---- canonical code assignment ----

  ghost predicate Sorted(len: Lengths, order: seq<nat>) {
    && (forall i :: 0 <= i < |order| ==> order[i] < |len|)
    && forall i, j :: 0 <= i < j < |order| ==> Before(len, order[i], order[j])
  }

  // order lists the present symbols in canonical order.
  ghost predicate IsOrder(len: Lengths, order: seq<nat>) {
    && Sorted(len, order)
    && (forall i :: 0 <= i < |order| ==> len[order[i]] > 0)
    && forall t :: 0 <= t < |len| && len[t] > 0 ==> t in order
  }

  // Along the canonical order each start is the previous start plus the previous share.
  lemma OrderStart(len: Lengths, order: seq<nat>, i: nat, d: nat)
    requires Bounded(len, d) && IsOrder(len, order) && i < |order|
    ensures Start(len, order[i], d) ==
              if i == 0 then 0 else Start(len, order[i - 1], d) + Weight(len, order[i - 1], d)
  {
    var s := order[i];
    forall u | 0 <= u < |len| && Before(len, u, s)
      ensures i > 0 && (u == order[i - 1] || Before(len, u, order[i - 1]))
    {
      var j :| 0 <= j < |order| && order[j] == u;
      assert j <= i;
    }
    if i == 0 {
      StartFits(len, s, |len|, d);
    } else {
      StartAdvance(len, order[i - 1], s, |len|, d);
    }
  }

  // found lists the present symbols below k, ascending.
  ghost predicate Found(len: Lengths, found: seq<nat>, k: nat)
    requires k <= |len|
  {
    && |found| <= k
    && (forall i :: 0 <= i < |found| ==> found[i] < k && len[found[i]] > 0)
    && (forall i, j :: 0 <= i < j < |found| ==> found[i] < found[j])
    && (forall t :: 0 <= t < k && len[t] > 0 ==> t in found)
  }

  method PresentSymbols(len: Lengths) returns (found: seq<nat>)
    ensures Found(len, found, |len|)
  {
    found := [];
    for s := 0 to |len|
      invariant Found(len, found, s)
    {
      if len[s] > 0 {
        found := found + [s];
      }
    }
  }

  // The position in a sorted list before which key belongs.
  ghost predicate InsertionPoint(len: Lengths, was: seq<nat>, key: nat, p: nat) {
    && p <= |was| && key < |len| && (forall i :: 0 <= i < |was| ==> was[i] < |len|)
    && (forall i :: 0 <= i < p ==> Before(len, was[i], key))
    && forall i :: p <= i < |was| ==> Before(len, key, was[i])
  }

  lemma InsertSorted(len: Lengths, was: seq<nat>, key: nat, p: nat)
    requires Sorted(len, was) && InsertionPoint(len, was, key, p)
    ensures Sorted(len, was[..p] + [key] + was[p..])
  {
  }

  // The source's sort order: longer codes, then larger symbols, go last.
  predicate SortsAfter(len: Lengths, x: nat, key: nat)
    requires x < |len| && key < |len|
  {
    len[x] > len[key] || (len[x] == len[key] && x > key)
  }

  // The inner loop of the insertion sort: shifts the symbols after key right and drops key in.
  method InsertKey(len: Lengths, order: seq<nat>, a: nat) returns (r: seq<nat>, ghost p: nat)
    requires a < |order| && forall i :: 0 <= i <= a ==> order[i] < |len|
    ensures p <= a && (p > 0 ==> !SortsAfter(len, order[p - 1], order[a]))
    ensures forall i :: p <= i < a ==> SortsAfter(len, order[i], order[a])
    ensures r == order[..p] + [order[a]] + order[p..a] + order[a + 1..]
  {
    hide SortsAfter;
    r := order;
    var key := order[a];
    var b: int := a - 1;
    while b >= 0 && SortsAfter(len, r[b], key)
      invariant -1 <= b < a && |r| == |order|
      invariant forall i :: 0 <= i <= b ==> r[i] == order[i]
      invariant forall i :: b + 2 <= i <= a ==> r[i] == order[i - 1]
      invariant forall i :: a < i < |order| ==> r[i] == order[i]
      invariant forall i :: b < i < a ==> SortsAfter(len, order[i], key)
    {
      r := r[b + 1 := r[b]];
      b := b - 1;
    }
    r := r[b + 1 := key];
    p := b + 1;
    InsertedAt(order, r, a, p);
  }

  lemma InsertedAt(order: seq<nat>, r: seq<nat>, a: nat, p: nat)
    requires p <= a < |order| == |r| && r[p] == order[a]
    requires forall i :: 0 <= i < p ==> r[i] == order[i]
    requires forall i :: p < i <= a ==> r[i] == order[i - 1]
    requires forall i :: a < i < |order| ==> r[i] == order[i]
    ensures r == order[..p] + [order[a]] + order[p..a] + order[a + 1..]
  {
  }

  lemma FoundPoint(len: Lengths, order: seq<nat>, a: nat, p: nat)
    requires p <= a < |order| && Sorted(len, order[..a])
    requires order[a] < |len| && len[order[a]] > 0 && order[a] !in order[..a]
    requires forall i :: 0 <= i < a ==> order[i] < |len| && len[order[i]] > 0
    requires p > 0 ==> !SortsAfter(len, order[p - 1], order[a])
    requires forall i :: p <= i < a ==> SortsAfter(len, order[i], order[a])
    ensures InsertionPoint(len, order[..a], order[a], p)
  {
    var was := order[..a];
    assert forall i :: 0 <= i < a ==> was[i] == order[i];
    if p > 0 {
      assert was[p - 1] in was;
      forall i | 0 <= i < p
        ensures Before(len, was[i], order[a])
      {
        assert i < p - 1 ==> Before(len, was[i], was[p - 1]);
      }
    }
  }

  // The present symbols in canonical order.
  method CanonicalOrder(len: Lengths) returns (order: seq<nat>)
    ensures IsOrder(len, order)
  {
    order := PresentSymbols(len);
    ghost var found := order;
    var a := 1;
    while a < |order|
      invariant 1 <= a && |order| == |found|
      invariant a <= |order| ==> SortedTo(len, found, order, a)
      invariant a > |order| ==> order == found && a == 1
    {
      ghost var was := order;
      SortedToNext(len, found, order, a);
      ghost var p;
      order, p := InsertKey(len, order, a);
      FoundPoint(len, was, a, p);
      SortedToStep(len, found, was, a, p);
      a := a + 1;
    }
    SortedToDone(len, found, order);
  }

  // The first a symbols found have been sorted; the rest are as found.
  ghost predicate SortedTo(len: Lengths, found: seq<nat>, order: seq<nat>, a: nat) {
    && a <= |order| == |found|
    && (forall i :: 0 <= i < |found| ==> found[i] < |len| && len[found[i]] > 0)
    && (forall i, j :: 0 <= i < j < |found| ==> found[i] < found[j])
    && Sorted(len, order[..a])
    && (forall t :: t in order[..a] <==> t in found[..a])
    && order[a..] == found[a..]
  }

  lemma SortedToNext(len: Lengths, found: seq<nat>, order: seq<nat>, a: nat)
    requires SortedTo(len, found, order, a) && a < |order|
    ensures order[a] < |len| && len[order[a]] > 0 && order[a] !in order[..a]
    ensures forall i :: 0 <= i < a ==> order[i] < |len| && len[order[i]] > 0
  {
    assert order[a] == order[a..][0] == found[a..][0];
    forall i | 0 <= i < a
      ensures order[i] < |len| && len[order[i]] > 0
    {
      assert order[i] == order[..a][i] && order[..a][i] in order[..a];
    }
  }

  lemma SortedToDone(len: Lengths, found: seq<nat>, order: seq<nat>)
    requires Found(len, found, |len|)
    requires (order == found && |found| <= 1) || SortedTo(len, found, order, |order|)
    ensures IsOrder(len, order)
  {
    assert order[..|order|] == order && found[..|order|] == found;
    assert forall i :: 0 <= i < |order| ==> order[i] in found;
  }

  lemma SortedToStep(len: Lengths, found: seq<nat>, was: seq<nat>, a: nat, p: nat)
    requires SortedTo(len, found, was, a) && a < |was|
    requires p <= a && InsertionPoint(len, was[..a], was[a], p)
    ensures SortedTo(len, found, was[..p] + [was[a]] + was[p..a] + was[a + 1..], a + 1)
  {
    var done, key := was[..a], was[a];
    var next := was[..p] + [key] + was[p..a] + was[a + 1..];
    InsertSorted(len, done, key, p);
    assert next[..a + 1] == done[..p] + [key] + done[p..];
    assert done == done[..p] + done[p..];
    assert found[..a + 1] == found[..a] + [found[a]];
    assert key == was[a..][0] == found[a..][0];
    assert next[a + 1..] == was[a..][1..] == found[a..][1..] == found[a + 1..];
  }

  // Shifting the running code to the next length gives the next symbol's code, and
  // incrementing it accounts for that symbol's share.
  lemma CodeStep(len: Lengths, order: seq<nat>, i: nat, code: nat, prevLen: nat, d: nat)
    requires Bounded(len, d) && IsOrder(len, order) && i < |order| && prevLen <= len[order[i]]
    requires Shl(code, d - prevLen) ==
               if i == 0 then 0 else Start(len, order[i - 1], d) + Weight(len, order[i - 1], d)
    ensures var c := Shl(code, len[order[i]] - prevLen);
            && c == Code(len, order[i], d)
            && Shl(c + 1, d - len[order[i]]) == Start(len, order[i], d) + Weight(len, order[i], d)
  {
    var s := order[i];
    var l := len[s];
    OrderStart(len, order, i, d);
    ShlShl(code, l - prevLen, d - l);
    var c := Shl(code, l - prevLen);
    ShrLowUnique(Start(len, s, d), d - l, c, 0);
    ShlAdd(c, 1, d - l);
    ShlPow2(0, d - l);
  }

  // The first i symbols of the order have their codes.
  ghost predicate Assigned(len: Lengths, order: seq<nat>, codeRev: seq<nat>, i: nat) {
    && Bounded(len, MAXLEN) && IsOrder(len, order) && i <= |order| && |codeRev| == |len|
    && (forall s :: 0 <= s < |len| ==> codeRev[s] < Pow2(len[s]))
    && forall j :: 0 <= j < i ==> ToBits(codeRev[order[j]], len[order[j]]) == Codeword(len, order[j], MAXLEN)
  }

  lemma AssignedStep(len: Lengths, order: seq<nat>, codeRev: seq<nat>, i: nat, r: nat)
    requires Assigned(len, order, codeRev, i) && i < |order|
    requires r < Pow2(len[order[i]]) && ToBits(r, len[order[i]]) == Codeword(len, order[i], MAXLEN)
    ensures Assigned(len, order, codeRev[order[i] := r], i + 1)
  {
    hide Codeword, ToBits;
    var next := codeRev[order[i] := r];
    forall j | 0 <= j < i + 1
      ensures ToBits(next[order[j]], len[order[j]]) == Codeword(len, order[j], MAXLEN)
    {
      assert order[j] == order[i] ==> j == i;
    }
  }

  // The running code before symbol i of the order, brought to full width.
  ghost function Reached(len: Lengths, order: seq<nat>, i: nat): nat
    requires Bounded(len, MAXLEN) && IsOrder(len, order) && i <= |order|
  {
    if i == 0 then 0 else Start(len, order[i - 1], MAXLEN) + Weight(len, order[i - 1], MAXLEN)
  }

  // huff_canonical_codes: the bit-reversed canonical code of every present symbol, 0 for the others.
  method CanonicalCodes(len: Lengths) returns (codeRev: seq<nat>)
    requires Bounded(len, MAXLEN)
    ensures CodesOf(len, codeRev)
  {
    hide Start, Weight, Shl, ToBits, Codeword, Pow2, Code;
    var order := CanonicalOrder(len);
    codeRev := NoCodes(len, order);
    var code: nat, prevLen: nat := 0, 0;
    ShlZero(MAXLEN);
    for i := 0 to |order|
      invariant Assigned(len, order, codeRev, i)
      invariant prevLen == if i == 0 then 0 else len[order[i - 1]]
      invariant Shl(code, MAXLEN - prevLen) == Reached(len, order, i)
    {
      var s := order[i];
      CodeStep(len, order, i, code, prevLen, MAXLEN);
      code := Shl(code, len[s] - prevLen);
      var r := BitRev(code, len[s]);
      CodewordIs(len, s, code);
      AssignedStep(len, order, codeRev, i, r);
      codeRev := codeRev[s := r];
      code := code + 1;
      prevLen := len[s];
    }
    AllAssigned(len, order, codeRev);
  }

  // codeRev before any symbol has a code: all zeros.
  method NoCodes(len: Lengths, ghost order: seq<nat>) returns (codeRev: seq<nat>)
    requires Bounded(len, MAXLEN) && IsOrder(len, order)
    ensures Assigned(len, order, codeRev, 0)
  {
    codeRev := seq(|len|, _ => 0);
    assert forall s :: 0 <= s < |len| ==> Pow2(len[s]) >= 1;
  }

  lemma CodewordIs(len: Lengths, s: nat, code: nat)
    requires Bounded(len, MAXLEN) && s < |len| && code == Code(len, s, MAXLEN)
    ensures MsbBits(code, len[s]) == Codeword(len, s, MAXLEN)
  {
  }

  lemma AllAssigned(len: Lengths, order: seq<nat>, codeRev: seq<nat>)
    requires Assigned(len, order, codeRev, |order|)
    ensures CodesOf(len, codeRev)
  {
    hide Codeword;
    forall s | 0 <= s < |len|
      ensures ToBits(codeRev[s], len[s]) == Codeword(len, s, MAXLEN)
    {
      if len[s] > 0 {
        assert s in order;
      } else {
        NoBits(len, s, codeRev[s]);
      }
    }
  }

  lemma NoBits(len: Lengths, s: nat, x: nat)
    requires Bounded(len, MAXLEN) && s < |len| && len[s] == 0
    ensures ToBits(x, 0) == Codeword(len, s, MAXLEN)
  {
  }

  ghost predicate CodesOf(len: Lengths, codeRev: seq<nat>) {
    && Bounded(len, MAXLEN) && |codeRev| == |len|
    && forall s :: 0 <= s < |len| ==>
         codeRev[s] < Pow2(len[s]) && ToBits(codeRev[s], len[s]) == Codeword(len, s, MAXLEN)
  }

  // ---- the wide lookup table ----

  // The entry that the table build leaves at window w: the only present symbol if there is
  // just one (its code is one bit), otherwise the symbol whose code begins w.
  ghost function LutEntry(len: Lengths, w: BitString): (nat, nat)
    requires Bounded(len, MAXLEN)
  {
    if PresentCount(len, |len|) == 1 then (LastPresent(len, |len|), 1) else LutScan(len, w, |len|, MAXLEN)
  }

  function LastPresent(len: Lengths, k: nat): (s: nat)
    requires k <= |len|
    ensures PresentCount(len, k) > 0 ==> s < k && len[s] > 0
  {
    if k == 0 then 0 else if len[k - 1] > 0 then k - 1 else LastPresent(len, k - 1)
  }

  // The table after every present symbol below k has been written.
  ghost predicate LutFilled(len: Lengths, lut: seq<(nat, nat)>, m: nat, k: nat)
    requires Bounded(len, MAXLEN) && k <= |len|
  {
    |lut| == Pow2(m) && forall i :: 0 <= i < |lut| ==> lut[i] == LutScan(len, ToBits(i, m), k, MAXLEN)
  }

  // A table index carries code base in its low l bits exactly when its window begins with it.
  lemma CellMatches(i: nat, m: nat, base: nat, l: nat)
    requires l <= m && base < Pow2(l)
    ensures StartsWith(ToBits(i, m), ToBits(base, l)) <==> Low(i, l) == base
  {
    hide ToBits, Low, Shr;
    ToBitsSplit(i, l, m - l);
    ToBitsLow(i, l);
    FrontOf(ToBits(i, l), ToBits(Shr(i, l), m - l));
    if ToBits(i, l) == ToBits(base, l) {
      ToBitsInjective(Low(i, l), base, l);
    }
  }

  lemma FrontOf(a: BitString, b: BitString)
    ensures (a + b)[..|a|] == a
  {
  }

  // The block of cells one symbol owns: its code in the low bits, anything above.
  method FillBlock(lut: array<(nat, nat)>, s: nat, l: nat, base: nat, m: nat)
    requires l <= m && base < Pow2(l) && lut.Length == Pow2(m)
    modifies lut
    ensures forall i :: 0 <= i < lut.Length ==> lut[i] == if Low(i, l) == base then (s, l) else old(lut[i])
  {
    var block := Pow2(m - l);
    for hi := 0 to block
      invariant forall i :: 0 <= i < lut.Length ==>
                  lut[i] == if Low(i, l) == base && Shr(i, l) < hi then (s, l) else old(lut[i])
    {
      OrDisjoint(base, hi, l);
      ShlBound(hi, l, m - l);
      var idx := Or(base, Shl(hi, l));
      ShrLowUnique(idx, l, hi, base);
      forall i | 0 <= i < lut.Length && Low(i, l) == base && Shr(i, l) == hi
        ensures i == idx
      {
        ShrLow(i, l);
      }
      lut[idx] := (s, l);
    }
    forall i | 0 <= i < lut.Length
      ensures Shr(i, l) < block
    {
      ShrBound(i, l, m - l);
    }
  }

  lemma LutFilledStep(len: Lengths, was: seq<(nat, nat)>, lut: seq<(nat, nat)>, m: nat, s: nat, base: nat)
    requires Bounded(len, MAXLEN) && s < |len| && 0 < len[s] <= m
    requires base < Pow2(len[s]) && ToBits(base, len[s]) == Codeword(len, s, MAXLEN)
    requires LutFilled(len, was, m, s) && |lut| == |was|
    requires forall i :: 0 <= i < |lut| ==> lut[i] == if Low(i, len[s]) == base then (s, len[s]) else was[i]
    ensures LutFilled(len, lut, m, s + 1)
  {
    forall i | 0 <= i < |lut|
      ensures lut[i] == LutScan(len, ToBits(i, m), s + 1, MAXLEN)
    {
      CellMatches(i, m, base, len[s]);
    }
  }

  lemma LutFilledSkip(len: Lengths, lut: seq<(nat, nat)>, m: nat, s: nat)
    requires Bounded(len, MAXLEN) && s < |len| && len[s] == 0 && LutFilled(len, lut, m, s)
    ensures LutFilled(len, lut, m, s + 1)
  {
  }

  // The table of a codebook with a single symbol.
  method FillSingle(len: Lengths, lut: array<(nat, nat)>)
    modifies lut
    ensures forall i :: 0 <= i < lut.Length ==> lut[i] == (LastPresent(len, |len|), 1)
  {
    var s := 0;
    for t := 0 to |len|
      invariant s == LastPresent(len, t)
    {
      if len[t] > 0 {
        s := t;
      }
    }
    for i := 0 to lut.Length
      invariant forall j :: 0 <= j < i ==> lut[j] == (s, 1)
    {
      lut[i] := (s, 1);
    }
  }

  // mode15_huff_lut_from_lengths, the tail of huff_build: the table for given code lengths.
  method BuildLut(len: Lengths, codeRev: seq<nat>, m: nat, nPresent: nat) returns (lut: array<(nat, nat)>)
    requires CodesOf(len, codeRev) && m == Width(len) && nPresent == PresentCount(len, |len|)
    ensures fresh(lut) && lut.Length == Pow2(m)
    ensures forall i :: 0 <= i < lut.Length ==> lut[i] == LutEntry(len, ToBits(i, m))
  {
    hide LutFilled, Codeword;
    lut := new (nat, nat)[Pow2(m)](_ => (0, 0));
    if nPresent == 1 {
      FillSingle(len, lut);
      return;
    }
    NothingFilled(len, lut[..], m);
    for s := 0 to |len|
      invariant LutFilled(len, lut[..], m, s)
    {
      if len[s] > 0 {
        ghost var was := lut[..];
        FillBlock(lut, s, len[s], codeRev[s], m);
        LutFilledStep(len, was, lut[..], m, s, codeRev[s]);
      } else {
        LutFilledSkip(len, lut[..], m, s);
      }
    }
    AllFilled(len, lut[..], m);
    forall i | 0 <= i < lut.Length
      ensures lut[i] == LutEntry(len, ToBits(i, m))
    {
      assert lut[i] == lut[..][i];
    }
  }

  lemma NothingFilled(len: Lengths, lut: seq<(nat, nat)>, m: nat)
    requires Bounded(len, MAXLEN) && |lut| == Pow2(m) && forall i :: 0 <= i < |lut| ==> lut[i] == (0, 0)
    ensures LutFilled(len, lut, m, 0)
  {
  }

  lemma AllFilled(len: Lengths, lut: seq<(nat, nat)>, m: nat)
    requires Bounded(len, MAXLEN) && LutFilled(len, lut, m, |len|) && PresentCount(len, |len|) != 1
    ensures forall i :: 0 <= i < |lut| ==> lut[i] == LutEntry(len, ToBits(i, m))
  {
  }

  // ---- coding rows ----

  ghost predicate RowOver(len: Lengths, row: seq<nat>) {
    forall i :: 0 <= i < |row| ==> row[i] < |len|
  }

  // A row whose every symbol has a code.
  ghost predicate Encodable(len: Lengths, row: seq<nat>) {
    forall i :: 0 <= i < |row| ==> Present(len, row[i])
  }

  // The codewords of a row, one after another.
  ghost function RowBits(len: Lengths, row: seq<nat>): (b: BitString)
    requires Bounded(len, MAXLEN) && RowOver(len, row)
  {
    if row == [] then [] else Codeword(len, row[0], MAXLEN) + RowBits(len, row[1..])
  }

  // The bytes of a coded row.
  ghost function CodedRow(len: Lengths, row: seq<nat>): seq<byte>
    requires Bounded(len, MAXLEN) && RowOver(len, row)
  {
    PackBits(RowBits(len, row))
  }

  // The symbols read from bits by n table lookups.
  ghost function DecodedRow(len: Lengths, bits: BitString, n: nat): (row: seq<nat>)
    requires Bounded(len, MAXLEN)
    ensures |row| == n
    decreases n
  {
    if n == 0 then [] else
      var e := LutEntry(len, Window(bits, Width(len)));
      [e.0] + DecodedRow(len, DropBits(bits, e.1), n - 1)
  }

  function BitCount(len: Lengths, row: seq<nat>): nat
    requires RowOver(len, row)
  {
    if row == [] then 0 else len[row[0]] + BitCount(len, row[1..])
  }

  // A table of lengths that is a codebook: one symbol with a one-bit code, or a complete code.
  ghost predicate CompleteTable(len: Lengths) {
    && Bounded(len, MAXLEN)
    && PresentCount(len, |len|) > 0
    && (if PresentCount(len, |len|) == 1 then len[LastPresent(len, |len|)] == 1
        else Kraft(len, MAXLEN) == Pow2(MAXLEN))
  }

  lemma {:induction false} SolePresent(len: Lengths, s: nat, k: nat)
    requires s < k <= |len| && len[s] > 0
    ensures PresentCount(len, k) > 0
    ensures PresentCount(len, k) == 1 ==> LastPresent(len, k) == s
  {
    if s < k - 1 {
      SolePresent(len, s, k - 1);
    }
  }

  // A window that begins with the code of s is decoded as s.
  lemma LookupFinds(len: Lengths, s: nat, bits: BitString)
    requires CompleteTable(len) && Present(len, s) && StartsWith(bits, Codeword(len, s, MAXLEN))
    ensures LutEntry(len, Window(bits, Width(len))) == (s, len[s])
  {
    SolePresent(len, s, |len|);
    if PresentCount(len, |len|) != 1 {
      var w := Window(bits, Width(len));
      assert w[..len[s]] == bits[..len[s]];
      LutScanFinds(len, s, w, |len|, MAXLEN);
    }
  }

  lemma {:induction false} DecodedRowBits(len: Lengths, row: seq<nat>, tail: BitString)
    requires CompleteTable(len) && Encodable(len, row)
    ensures DecodedRow(len, RowBits(len, row) + tail, |row|) == row
  {
    hide Codeword, LutEntry, Kraft, DecodedRow, Window, DropBits;
    if row != [] {
      var c, rest := Codeword(len, row[0], MAXLEN), RowBits(len, row[1..]);
      var bits := RowBits(len, row) + tail;
      assert bits == c + (rest + tail);
      LookupFinds(len, row[0], bits);
      DecodedStep(len, bits, |row|, [], (row[0], len[row[0]]));
      DropFront(c, rest + tail);
      DecodedRowBits(len, row[1..], tail);
      assert row == [row[0]] + row[1..] && [] + [row[0]] == [row[0]];
      assert [] + DecodedRow(len, bits, |row|) == DecodedRow(len, bits, |row|);
    }
  }

  lemma DropFront(c: BitString, rest: BitString)
    ensures DropBits(c + rest, |c|) == rest
  {
  }

  lemma {:induction false} BitCountIsLength(len: Lengths, row: seq<nat>)
    requires Bounded(len, MAXLEN) && RowOver(len, row)
    ensures |RowBits(len, row)| == BitCount(len, row)
  {
    if row != [] {
      BitCountIsLength(len, row[1..]);
    }
  }

  // Decoding a coded row gives the row back, in ceil(bits / 8) bytes.
  lemma RowRoundTrip(len: Lengths, row: seq<nat>)
    requires CompleteTable(len) && Encodable(len, row)
    ensures DecodedRow(len, BytesBits(CodedRow(len, row)), |row|) == row
    ensures |CodedRow(len, row)| == (BitCount(len, row) + 7) / 8
  {
    BitCountIsLength(len, row);
    PackBitsBits(RowBits(len, row));
    DecodedRowBits(len, row, Zeros(8 * |CodedRow(len, row)| - |RowBits(len, row)|));
  }

  lemma {:induction false} RowBitsSnoc(len: Lengths, row: seq<nat>, s: nat)
    requires Bounded(len, MAXLEN) && RowOver(len, row) && s < |len|
    ensures RowBits(len, row + [s]) == RowBits(len, row) + Codeword(len, s, MAXLEN)
  {
    if row == [] {
      assert RowBits(len, [s]) == Codeword(len, s, MAXLEN) + RowBits(len, []);
      assert [] + [s] == [s];
    } else {
      RowBitsSnoc(len, row[1..], s);
      assert (row + [s])[1..] == row[1..] + [s];
      var x, y, z := Codeword(len, row[0], MAXLEN), RowBits(len, row[1..]), Codeword(len, s, MAXLEN);
      assert x + (y + z) == (x + y) + z;
    }
  }

  class HuffCodebook {
    const len: Lengths
    var codeRev: seq<nat>
    var maxlen: nat
    var nPresent: nat
    var lut: array<(nat, nat)>

    ghost predicate Valid()
      reads this, lut
    {
      && CodesOf(len, codeRev)
      && maxlen == Width(len) <= MAXLEN && nPresent == PresentCount(len, |len|)
      && lut.Length == Pow2(maxlen)
      && forall i :: 0 <= i < lut.Length ==> lut[i] == LutEntry(len, ToBits(i, maxlen))
    }

    // The codebook of stored code lengths.
    constructor (len: Lengths)
      requires Bounded(len, MAXLEN)
      ensures Valid() && this.len == len && fresh(lut)
    {
      hide CodesOf, LutEntry, ToBits;
      this.len := len;
      var codes := CanonicalCodes(len);
      codeRev := codes;
      var widest, npres := 0, 0;
      for s := 0 to |len|
        invariant widest == MaxLen(len, s) && npres == PresentCount(len, s)
      {
        if len[s] > 0 {
          npres := npres + 1;
          if len[s] > widest {
            widest := len[s];
          }
        }
      }
      nPresent := npres;
      maxlen := if widest > 0 then widest else 1;
      var table := BuildLut(len, codes, if widest > 0 then widest else 1, npres);
      lut := table;
    }

    // Stored bits of a row, without encoding it.
    method HuffRowBits(sym: seq<nat>) returns (bits: nat)
      requires RowOver(len, sym)
      ensures bits == BitCount(len, sym)
    {
      bits := 0;
      for i := 0 to |sym|
        invariant RowOver(len, sym[..i]) && bits == BitCount(len, sym[..i])
      {
        BitCountSnoc(len, sym[..i], sym[i]);
        assert sym[..i + 1] == sym[..i] + [sym[i]];
        bits := bits + len[sym[i]];
      }
      assert sym[..|sym|] == sym;
    }

    // Writes the coded row at out[off..]; -1 if it needs more than cap bytes.
    method EncodeRow(sym: seq<nat>, out: array<byte>, off: nat, cap: nat) returns (used: int)
      requires Valid() && RowOver(len, sym) && off + cap <= out.Length
      modifies out
      ensures var coded := CodedRow(len, sym);
              && used == (if |coded| <= cap then |coded| else -1)
              && (|coded| <= cap ==> out[off..off + |coded|] == coded)
      ensures forall i :: 0 <= i < out.Length && !(off <= i < off + cap) ==> out[i] == old(out[i])
    {
      hide RowBits, PackBits, Codeword, LutEntry, ToBits, MaxLen, PresentCount;
      NoRowBits(len);
      var w := new BitWriter(out, off, cap);
      for i := 0 to |sym|
        invariant w.Valid() && fresh(w) && w.buf == out && w.off == off && w.cap == cap
        invariant RowOver(len, sym[..i]) && w.written == RowBits(len, sym[..i])
        invariant forall i :: 0 <= i < out.Length && !(off <= i < off + cap) ==> out[i] == old(out[i])
      {
        var s := sym[i];
        RowBitsSnoc(len, sym[..i], s);
        assert sym[..i + 1] == sym[..i] + [s];
        CodeIsWord(len, codeRev, s);
        w.Put(codeRev[s], len[s]);
      }
      assert sym[..|sym|] == sym;
      var n := w.Finish();
      used := if n > cap then -1 else n;
    }

    // Decodes n symbols of payload into symOut.
    method DecodeRow(payload: seq<byte>, n: nat, symOut: array<nat>)
      requires Valid() && n <= symOut.Length
      modifies symOut
      ensures symOut[..n] == DecodedRow(len, BytesBits(payload), n)
    {
      hide DecodedRow, LutEntry, CodesOf, ToBits, BytesBits, MaxLen, PresentCount;
      var r := new BitReader(payload);
      ghost var bits := BytesBits(payload);
      ghost var done := [];
      for i := 0 to n
        invariant r.Valid() && fresh(r) && Valid()
        invariant DecodedRow(len, bits, n) == done + DecodedRow(len, r.Rest(), n - i)
        invariant |done| == i && forall j :: 0 <= j < i ==> symOut[j] == done[j]
      {
        var s := DecodeOne(r, done, n - i);
        done := done + [s];
        symOut[i] := s;
      }
      assert symOut[..n] == done;
    }

    // One symbol: peek a window, hit the table, drop the bits it consumed.
    method DecodeOne(r: BitReader, ghost done: seq<nat>, ghost n: nat) returns (s: nat)
      requires Valid() && r.Valid() && n > 0
      modifies r
      ensures r.Valid()
      ensures done + DecodedRow(len, old(r.Rest()), n) == (done + [s]) + DecodedRow(len, r.Rest(), n - 1)
    {
      r.Refill(maxlen);
      var window := r.Peek(maxlen);
      ToFrom(Window(r.Rest(), maxlen));
      LutEntryWidth(len, Window(r.Rest(), maxlen));
      var e := lut[window];
      DecodedStep(len, r.Rest(), n, done, e);
      r.Drop(e.1);
      s := e.0;
    }
  }

  lemma NoRowBits(len: Lengths)
    requires Bounded(len, MAXLEN)
    ensures RowBits(len, []) == []
  {
  }

  // The bits put for a symbol are its codeword.
  lemma CodeIsWord(len: Lengths, codes: seq<nat>, s: nat)
    requires Bounded(len, MAXLEN) && CodesOf(len, codes) && s < |len|
    ensures len[s] <= 24 && s < |codes| && ToBits(codes[s], len[s]) == Codeword(len, s, MAXLEN)
  {
  }

  lemma DecodedStep(len: Lengths, rest: BitString, n: nat, done: seq<nat>, e: (nat, nat))
    requires Bounded(len, MAXLEN) && n > 0 && e == LutEntry(len, Window(rest, Width(len)))
    ensures done + DecodedRow(len, rest, n) == (done + [e.0]) + DecodedRow(len, DropBits(rest, e.1), n - 1)
  {
  }

  lemma {:induction false} BitCountSnoc(len: Lengths, row: seq<nat>, s: nat)
    requires RowOver(len, row) && s < |len|
    ensures BitCount(len, row + [s]) == BitCount(len, row) + len[s]
  {
    if row == [] {
      assert [] + [s] == [s];
    } else {
      BitCountSnoc(len, row[1..], s);
      assert (row + [s])[1..] == row[1..] + [s];
    }
  }

  // A table entry never consumes more bits than the window holds.
  lemma {:induction false} LutScanWidth(len: Lengths, w: BitString, k: nat)
    requires k <= |len| && Bounded(len, MAXLEN)
    ensures LutScan(len, w, k, MAXLEN).1 <= |w|
  {
    if k > 0 {
      LutScanWidth(len, w, k - 1);
    }
  }

  lemma LutEntryWidth(len: Lengths, w: BitString)
    requires Bounded(len, MAXLEN) && |w| > 0
    ensures LutEntry(len, w).1 <= |w|
  {
    LutScanWidth(len, w, |len|);
  }
}
