/** The table-driven ANS (tANS / FSE) row codec of c/codec_row_fse.h. The table has 2^w cells;
    the source uses w == 12. */
module Tans {
  import opened Arith
  import opened Bits
  import opened BitIO
  import opened Quantize

  // ---- symbol spread ----

  function Step(w: nat): nat
    requires w >= 4
  {
    Shr(Pow2(w), 1) + Shr(Pow2(w), 3) + 3
  }

  // The cell written k-th.
  function SpreadPos(k: nat, step: nat, w: nat): (p: nat)
    ensures p < Pow2(w)
  {
    if k == 0 then 0 else Low(SpreadPos(k - 1, step, w) + step, w)
  }

  // The step is odd: five eighths of the table and 3 more.
  lemma {:induction false} StepIs(w: nat)
    requires w >= 4
    ensures Step(w) % 2 == 1 && 8 * Step(w) == 5 * Pow2(w) + 24
  {
    var a := Pow2(w - 3);
    assert a == 2 * Pow2(w - 4);
    assert Pow2(w - 2) == 2 * a && Pow2(w - 1) == 4 * a && Pow2(w) == 8 * a;
    ShrLowUnique(8 * a, 1, 4 * a, 0);
    ShlIsMul(a, 3);
    assert Pow2(3) == 8;
    ShrLowUnique(8 * a, 3, a, 0);
  }

  // An odd multiple of x is divisible by a power of two only if x is.
  lemma {:induction false} OddMultiple(odd: nat, x: nat, q: nat, w: nat) returns (c: nat)
    requires odd % 2 == 1 && odd * x == Shl(q, w)
    ensures x == Shl(c, w)
  {
    if w == 0 {
      c := x;
    } else {
      var y := x / 2;
      OddTimes(odd, x);
      Distribute(odd, y, y);
      assert x == y + y;
      c := OddMultiple(odd, y, q, w - 1);
    }
  }

  lemma OddTimes(odd: nat, x: nat)
    requires odd % 2 == 1
    ensures (odd * x) % 2 == x % 2
  {
    var h := odd / 2;
    Distribute(x, h, h);
    Distribute(x, 2 * h, 1);
    assert odd * x == 2 * (x * h) + x;
  }

  lemma {:induction false} SpreadMultiple(k: nat, step: nat, w: nat) returns (q: nat)
    ensures k * step == SpreadPos(k, step, w) + Shl(q, w)
  {
    if k == 0 {
      ShlZero(w);
      q := 0;
    } else {
      q := SpreadMultiple(k - 1, step, w);
      var x := SpreadPos(k - 1, step, w) + step;
      ShrLow(x, w);
      ShlAdd(q, Shr(x, w), w);
      assert k * step == (k - 1) * step + step;
      q := q + Shr(x, w);
    }
  }

  // The odd step visits every cell at most once in a full turn.
  lemma SpreadInjective(j: nat, k: nat, step: nat, w: nat)
    requires step % 2 == 1 && j < k < Pow2(w)
    ensures SpreadPos(j, step, w) != SpreadPos(k, step, w)
  {
    var a := SpreadMultiple(j, step, w);
    var b := SpreadMultiple(k, step, w);
    if SpreadPos(j, step, w) == SpreadPos(k, step, w) {
      Distribute(step, k, j);
      MulMono(j, k, step);
      ShlIsMul(a, w);
      ShlIsMul(b, w);
      CancelLe(Pow2(w), a, b);
      ShlAdd(a, b - a, w);
      assert step * (k - j) == Shl(b - a, w);
      var c := OddMultiple(step, k - j, b - a, w);
      ShlIsMul(c, w);
      if c >= 1 {
        MulAtLeast(Pow2(w), c);
      }
    }
  }

  // How many of the first k cells hold s.
  function Count(table: seq<nat>, s: nat, k: nat): nat
    requires k <= |table|
  {
    if k == 0 then 0 else Count(table, s, k - 1) + (if table[k - 1] == s then 1 else 0)
  }

  lemma {:induction false} CountUpdate(table: seq<nat>, i: nat, v: nat, s: nat, k: nat)
    requires i < |table| && k <= |table|
    ensures Count(table[i := v], s, k) == Count(table, s, k)
              + (if i < k then (if v == s then 1 else 0) - (if table[i] == s then 1 else 0) else 0)
  {
    if k > 0 {
      CountUpdate(table, i, v, s, k - 1);
    }
  }

  lemma {:induction false} CountAll(table: seq<nat>, s: nat, k: nat)
    requires k <= |table|
    ensures Count(table, s, k) == 0 <==> forall i :: 0 <= i < k ==> table[i] != s
    ensures (forall i :: 0 <= i < k ==> table[i] == s) ==> Count(table, s, k) == k
  {
    if k > 0 {
      CountAll(table, s, k - 1);
    }
  }

  lemma {:induction false} CountMono(table: seq<nat>, s: nat, j: nat, k: nat)
    requires j <= k <= |table|
    ensures Count(table, s, j) <= Count(table, s, k)
    ensures j < k && table[j] == s ==> Count(table, s, j) < Count(table, s, k)
  {
    if j < k {
      CountMono(table, s, j, k - 1);
    }
  }

  // After cur cells have been written, c of them for symbol s; the rest still hold |freq|.
  ghost predicate Spreading(freq: seq<nat>, table: seq<nat>, w: nat, s: nat, c: nat, cur: nat) {
    && w >= 4 && |table| == Pow2(w) && s < |freq| && cur <= Pow2(w)
    && (forall i :: 0 <= i < |table| ==> table[i] <= |freq|)
    && (forall u :: 0 <= u < |freq| ==>
          Count(table, u, |table|) == if u < s then freq[u] else if u == s then c else 0)
    && Count(table, |freq|, |table|) == Pow2(w) - cur
    && (forall k: nat :: cur <= k < Pow2(w) ==> table[SpreadPos(k, Step(w), w)] == |freq|)
  }

  lemma SpreadOne(freq: seq<nat>, table: seq<nat>, w: nat, s: nat, c: nat, cur: nat)
    requires Spreading(freq, table, w, s, c, cur) && cur < Pow2(w)
    ensures Spreading(freq, table[SpreadPos(cur, Step(w), w) := s], w, s, c + 1, cur + 1)
  {
    var p := SpreadPos(cur, Step(w), w);
    var t := table[p := s];
    assert table[p] == |freq|;
    forall u | 0 <= u < |freq|
      ensures Count(t, u, |t|) == if u < s then freq[u] else if u == s then c + 1 else 0
    {
      CountUpdate(table, p, s, u, |table|);
    }
    CountUpdate(table, p, s, |freq|, |table|);
    StepIs(w);
    forall k: nat | cur + 1 <= k < Pow2(w)
      ensures SpreadPos(k, Step(w), w) != p
    {
      SpreadInjective(cur, k, Step(w), w);
    }
  }

  lemma SpreadStart(freq: seq<nat>, table: seq<nat>, w: nat)
    requires w >= 4 && |freq| > 0 && |table| == Pow2(w) && forall i :: 0 <= i < |table| ==> table[i] == |freq|
    ensures Spreading(freq, table, w, 0, 0, 0)
  {
    hide Step;
    forall u | 0 <= u <= |freq|
      ensures Count(table, u, |table|) == if u == |freq| then Pow2(w) else 0
    {
      CountAll(table, u, |table|);
    }
  }

  lemma NextSymbol(freq: seq<nat>, table: seq<nat>, w: nat, s: nat, cur: nat)
    requires s + 1 < |freq| && Spreading(freq, table, w, s, freq[s], cur)
    ensures Spreading(freq, table, w, s + 1, 0, cur)
  {
    hide Step;
  }

  lemma SpreadDone(freq: seq<nat>, table: seq<nat>, w: nat, s: nat)
    requires s + 1 == |freq| && Spreading(freq, table, w, s, freq[s], Pow2(w))
    ensures forall i :: 0 <= i < |table| ==> table[i] < |freq|
    ensures forall s :: 0 <= s < |freq| ==> Count(table, s, |table|) == freq[s]
  {
    hide Step;
    CountAll(table, |freq|, |table|);
  }

  lemma SumStep(freq: seq<nat>, s: nat)
    requires s < |freq|
    ensures Sum(freq, s) + freq[s] == Sum(freq, s + 1) <= Sum(freq, |freq|)
  {
    SumMono(freq, s + 1, |freq|);
  }

  // tableSymbol: every cell written exactly once, freq[s] cells for symbol s.
  method Spread(freq: seq<nat>, w: nat) returns (table: seq<nat>)
    requires w >= 4 && |freq| > 0 && Sum(freq, |freq|) == Pow2(w)
    ensures |table| == Pow2(w)
    ensures forall i :: 0 <= i < |table| ==> table[i] < |freq|
    ensures forall s :: 0 <= s < |freq| ==> Count(table, s, |table|) == freq[s]
  {
    hide Spreading, Count, Step, Sum;
    table := seq(Pow2(w), _ => |freq|);
    SpreadStart(freq, table, w);
    var step := Step(w);
    var pos := 0;
    ghost var cur := 0;
    assert Sum(freq, 0) == 0 by { SumNone(freq); }
    for s := 0 to |freq|
      invariant cur == Sum(freq, s) <= Pow2(w) && |table| == Pow2(w)
      invariant pos == SpreadPos(cur, step, w)
      invariant s < |freq| ==> Spreading(freq, table, w, s, 0, cur)
      invariant s == |freq| ==> Spreading(freq, table, w, s - 1, freq[s - 1], cur)
    {
      SumStep(freq, s);
      for c := 0 to freq[s]
        invariant cur == Sum(freq, s) + c && |table| == Pow2(w)
        invariant pos == SpreadPos(cur, step, w)
        invariant Spreading(freq, table, w, s, c, cur)
      {
        SpreadOne(freq, table, w, s, c, cur);
        table := table[pos := s];
        pos := Low(pos + step, w);
        cur := cur + 1;
      }
      if s + 1 < |freq| {
        NextSymbol(freq, table, w, s, cur);
      }
    }
    SpreadDone(freq, table, w, |freq| - 1);
  }

  lemma SumNone(freq: seq<nat>)
    ensures Sum(freq, 0) == 0
  {
  }

  // ---- decode table and its inverse ----

  // floor(log2(x)) for x >= 1.
  function HighBit(x: nat): (h: nat)
    ensures x >= 1 ==> Pow2(h) <= x < 2 * Pow2(h)
  {
    if x <= 1 then 0 else 1 + HighBit(x / 2)
  }

  method HighBit32(x: nat) returns (r: nat)
    requires x >= 1
    ensures r == HighBit(x)
  {
    r := 0;
    var y := x;
    while y > 1
      invariant y >= 1 && r + HighBit(y) == HighBit(x)
    {
      y, r := y / 2, r + 1;
    }
  }

  // y halved until it lies in [f, 2 * f): the occurrence number that covers state y.
  function Slot(f: nat, y: nat): (x: nat)
    requires 0 < f <= y
    ensures f <= x < 2 * f
  {
    if y < 2 * f then y else Slot(f, y / 2)
  }

  lemma {:induction false} SlotUnique(f: nat, y: nat, n: nat)
    requires 0 < f <= y && f <= Shr(y, n) < 2 * f
    ensures Slot(f, y) == Shr(y, n)
  {
    if n > 0 {
      ShrLe(y / 2, n - 1);
      SlotUnique(f, y / 2, n - 1);
    }
  }

  lemma {:induction false} ShrLe(y: nat, n: nat)
    ensures Shr(y, n) <= y
  {
    if n > 0 {
      ShrLe(y / 2, n - 1);
    }
  }

  lemma {:induction false} SlotIsShift(f: nat, y: nat)
    requires 0 < f <= y
    ensures HighBit(Slot(f, y)) <= HighBit(y)
    ensures Shr(y, HighBit(y) - HighBit(Slot(f, y))) == Slot(f, y)
  {
    if y >= 2 * f {
      SlotIsShift(f, y / 2);
    }
  }

  lemma {:induction false} HighBitRange(x: nat, h: nat)
    requires Pow2(h) <= x < 2 * Pow2(h)
    ensures HighBit(x) == h
  {
    if h > 0 {
      HighBitRange(x / 2, h - 1);
    }
  }

  // Number of state bits read on leaving a cell with occurrence number x.
  function BitsOf(x: nat, w: nat): int {
    w - HighBit(x)
  }

  function BaseOf(x: nat, w: nat): int
    requires BitsOf(x, w) >= 0
  {
    Shl(x, BitsOf(x, w)) - Pow2(w)
  }

  lemma CellFits(f: nat, x: nat, w: nat)
    requires 0 < f <= Pow2(w) && f <= x < 2 * f
    ensures 0 <= BitsOf(x, w) <= w
    ensures 0 <= BaseOf(x, w) && BaseOf(x, w) + Pow2(BitsOf(x, w)) <= Pow2(w)
  {
    var h := HighBit(x);
    if h > w {
      Pow2Mono(w + 1, h);
    }
    var b := w - h;
    ShlAdd(x - Pow2(h), Pow2(h), b);
    ShlPow2(h, b);
    ShlBound(x - Pow2(h), b, h);
  }

  // The states covered by occurrence x of a symbol with frequency f are those that halve to x.
  lemma CellCovers(f: nat, x: nat, v: nat, w: nat)
    requires 0 < f <= Pow2(w) && f <= x < 2 * f && v < Pow2(w)
    ensures 0 <= BitsOf(x, w)
    ensures BaseOf(x, w) <= v < BaseOf(x, w) + Pow2(BitsOf(x, w)) <==> Slot(f, v + Pow2(w)) == x
  {
    CellFits(f, x, w);
    var b: nat, y := BitsOf(x, w), v + Pow2(w);
    if BaseOf(x, w) <= v < BaseOf(x, w) + Pow2(b) {
      ShrLowUnique(y, b, x, v - BaseOf(x, w));
      SlotUnique(f, y, b);
    }
    if Slot(f, y) == x {
      HighBitRange(y, w);
      SlotIsShift(f, y);
      ShrLow(y, b);
    }
  }

  datatype Tables = Tables(freq: seq<nat>, dsym: seq<nat>, dbits: seq<nat>, dbase: seq<nat>, enc: seq<seq<nat>>)

  // The occurrence number of cell i: freq, freq + 1, ... in table order for each symbol.
  ghost function Occurrence(freq: seq<nat>, table: seq<nat>, i: nat): nat
    requires i < |table| && table[i] < |freq|
  {
    freq[table[i]] + Count(table, table[i], i)
  }

  ghost predicate SpreadTable(freq: seq<nat>, table: seq<nat>, w: nat) {
    && w >= 4 && |table| == Pow2(w)
    && (forall i :: 0 <= i < |table| ==> table[i] < |freq|)
    && forall s :: 0 <= s < |freq| ==> Count(table, s, |table|) == freq[s] <= Pow2(w)
  }

  lemma OccurrenceRange(freq: seq<nat>, table: seq<nat>, w: nat, i: nat)
    requires SpreadTable(freq, table, w) && i < |table|
    ensures var f := freq[table[i]]; 0 < f <= Pow2(w) && f <= Occurrence(freq, table, i) < 2 * f
  {
    CountMono(table, table[i], i, |table|);
  }

  // The decode entries of the first i cells.
  ghost predicate DecodeTo(freq: seq<nat>, table: seq<nat>, w: nat, t: Tables, i: nat)
    requires SpreadTable(freq, table, w) && i <= |table|
  {
    && |t.dsym| == i && |t.dbits| == i && |t.dbase| == i
    && forall j :: 0 <= j < i ==>
         && t.dsym[j] == table[j]
         && t.dbits[j] == BitsOf(Occurrence(freq, table, j), w) >= 0
         && t.dbase[j] == BaseOf(Occurrence(freq, table, j), w)
  }

  // enc sends each state to the cell that leads back to it, for occurrences among the first i cells.
  ghost predicate EncodeTo(freq: seq<nat>, table: seq<nat>, w: nat, enc: seq<seq<nat>>, i: nat)
    requires SpreadTable(freq, table, w) && i <= |table|
  {
    && |enc| == |freq| && (forall s :: 0 <= s < |enc| ==> |enc[s]| == Pow2(w))
    && forall s, v {:trigger enc[s][v]} :: 0 <= s < |enc| && 0 <= v < Pow2(w) && freq[s] > 0 ==>
         Slot(freq[s], v + Pow2(w)) < freq[s] + Count(table, s, i) ==>
           enc[s][v] < i && table[enc[s][v]] == s && Occurrence(freq, table, enc[s][v]) == Slot(freq[s], v + Pow2(w))
  }

  lemma EncodeStep(freq: seq<nat>, table: seq<nat>, w: nat, enc: seq<seq<nat>>, i: nat, next: seq<seq<nat>>)
    requires SpreadTable(freq, table, w) && i < |table| && EncodeTo(freq, table, w, enc, i)
    requires |next| == |enc| && forall s :: 0 <= s < |next| ==> |next[s]| == Pow2(w)
    requires var x := Occurrence(freq, table, i);
             BitsOf(x, w) >= 0 &&
             forall s, v {:trigger next[s][v]} :: 0 <= s < |next| && 0 <= v < Pow2(w) ==>
               next[s][v] == if s == table[i] && BaseOf(x, w) <= v < BaseOf(x, w) + Pow2(BitsOf(x, w)) then i else enc[s][v]
    ensures EncodeTo(freq, table, w, next, i + 1)
  {
    hide Slot, HighBit, BaseOf, BitsOf, Shl;
    var x := Occurrence(freq, table, i);
    OccurrenceRange(freq, table, w, i);
    forall s, v | 0 <= s < |next| && 0 <= v < Pow2(w) && freq[s] > 0
                  && Slot(freq[s], v + Pow2(w)) < freq[s] + Count(table, s, i + 1)
      ensures next[s][v] < i + 1 && table[next[s][v]] == s
              && Occurrence(freq, table, next[s][v]) == Slot(freq[s], v + Pow2(w))
    {
      if s == table[i] {
        CellCovers(freq[s], x, v, w);
      }
      assert enc[s][v] == enc[s][v];
    }
  }

  // Fills one cell's block in its symbol's row of the encode table.
  method FillBlock(row: seq<nat>, base: nat, block: nat, i: nat) returns (r: seq<nat>)
    requires base + block <= |row|
    ensures |r| == |row|
    ensures forall v :: 0 <= v < |row| ==> r[v] == if base <= v < base + block then i else row[v]
  {
    r := row;
    for v := 0 to block
      invariant |r| == |row|
      invariant forall u :: 0 <= u < |row| ==> r[u] == if base <= u < base + v then i else row[u]
    {
      r := r[base + v := i];
    }
  }

  // Every cell's block lies in the table, and enc inverts the decode table.
  ghost predicate Coder(t: Tables, w: nat) {
    && |t.dsym| == Pow2(w) && |t.dbits| == Pow2(w) && |t.dbase| == Pow2(w)
    && |t.enc| == |t.freq| && (forall s :: 0 <= s < |t.enc| ==> |t.enc[s]| == Pow2(w))
    && (forall i :: 0 <= i < Pow2(w) ==>
          t.dsym[i] < |t.freq| && t.dbits[i] <= w && t.dbase[i] + Pow2(t.dbits[i]) <= Pow2(w))
    && (forall s, v :: 0 <= s < |t.enc| && 0 <= v < Pow2(w) && t.freq[s] > 0 ==>
          t.enc[s][v] < Pow2(w) && InBlock(t, s, v, t.enc[s][v]))
  }

  // Decoding from cell i emits s and can move to state v.
  ghost predicate InBlock(t: Tables, s: nat, v: nat, i: nat) {
    && i < |t.dsym| && i < |t.dbits| && i < |t.dbase|
    && t.dsym[i] == s && t.dbase[i] <= v < t.dbase[i] + Pow2(t.dbits[i])
  }

  // Exactly one cell of symbol s leads to state v.
  ghost predicate OneCell(t: Tables, w: nat, s: nat, v: nat) {
    exists i: nat :: i < Pow2(w) && InBlock(t, s, v, i) && OnlyCell(t, w, s, v, i)
  }

  ghost predicate OnlyCell(t: Tables, w: nat, s: nat, v: nat, i: nat) {
    forall j: nat :: j < Pow2(w) && InBlock(t, s, v, j) ==> j == i
  }

  // One cell of the second table pass: symbol, occurrence number, decode entry and encode block.
  method AddCell(freq: seq<nat>, table: seq<nat>, w: nat, t: Tables, i: nat, next: nat) returns (r: Tables)
    requires SpreadTable(freq, table, w) && i < |table| && next == Occurrence(freq, table, i)
    requires BuiltTo(freq, table, w, t, i)
    ensures BuiltTo(freq, table, w, r, i + 1)
  {
    var s := table[i];
    OccurrenceRange(freq, table, w, i);
    hide DecodeTo, EncodeTo, SpreadTable, Occurrence, Shl, HighBit, Pow2;
    EncodeSizes(freq, table, w, t.enc, i);
    CellFits(freq[s], next, w);
    var high := HighBit32(next);
    var nbBits := w - high;
    var base := Shl(next, nbBits) - Pow2(w);
    var row := FillBlock(t.enc[s], base, Pow2(nbBits), i);
    var enc := t.enc[s := row];
    EncodeStep(freq, table, w, t.enc, i, enc);
    r := Tables(freq, t.dsym + [s], t.dbits + [nbBits], t.dbase + [base], enc);
    DecodeStep(freq, table, w, t, i, r);
  }

  lemma EncodeSizes(freq: seq<nat>, table: seq<nat>, w: nat, enc: seq<seq<nat>>, i: nat)
    requires SpreadTable(freq, table, w) && i < |table| && EncodeTo(freq, table, w, enc, i)
    ensures |enc| == |freq| && (forall s :: 0 <= s < |enc| ==> |enc[s]| == Pow2(w)) && table[i] < |freq|
  {
  }

  lemma DecodeStep(freq: seq<nat>, table: seq<nat>, w: nat, t: Tables, i: nat, r: Tables)
    requires SpreadTable(freq, table, w) && i < |table| && DecodeTo(freq, table, w, t, i)
    requires var x := Occurrence(freq, table, i);
             BitsOf(x, w) >= 0 && BaseOf(x, w) >= 0 && r.dsym == t.dsym + [table[i]]
             && r.dbits == t.dbits + [BitsOf(x, w)] && r.dbase == t.dbase + [BaseOf(x, w)]
    ensures DecodeTo(freq, table, w, r, i + 1)
  {
    hide BitsOf, BaseOf, Occurrence;
  }

  ghost predicate BuiltTo(freq: seq<nat>, table: seq<nat>, w: nat, t: Tables, i: nat) {
    && SpreadTable(freq, table, w) && i <= |table| && t.freq == freq
    && DecodeTo(freq, table, w, t, i) && EncodeTo(freq, table, w, t.enc, i)
  }

  lemma NothingBuilt(freq: seq<nat>, table: seq<nat>, w: nat, t: Tables)
    requires SpreadTable(freq, table, w)
    requires t == Tables(freq, [], [], [], seq(|freq|, _ => seq(Pow2(w), _ => 0)))
    ensures BuiltTo(freq, table, w, t, 0)
  {
  }

  // symbolNext counts the occurrences seen so far.
  lemma NextOccurrence(freq: seq<nat>, table: seq<nat>, w: nat, symbolNext: seq<nat>, i: nat)
    requires SpreadTable(freq, table, w) && i < |table| && |symbolNext| == |freq|
    requires forall s :: 0 <= s < |freq| ==> symbolNext[s] == freq[s] + Count(table, s, i)
    ensures symbolNext[table[i]] == Occurrence(freq, table, i)
    ensures var after := symbolNext[table[i] := symbolNext[table[i]] + 1];
            forall s :: 0 <= s < |freq| ==> after[s] == freq[s] + Count(table, s, i + 1)
  {
  }

  method BuildTables(freq: seq<nat>, table: seq<nat>, w: nat) returns (t: Tables)
    requires SpreadTable(freq, table, w)
    ensures BuiltTo(freq, table, w, t, Pow2(w))
  {
    hide BuiltTo;
    var symbolNext := freq;
    t := Tables(freq, [], [], [], seq(|freq|, _ => seq(Pow2(w), _ => 0)));
    NothingBuilt(freq, table, w, t);
    for i := 0 to Pow2(w)
      invariant |symbolNext| == |freq|
      invariant forall s :: 0 <= s < |freq| ==> symbolNext[s] == freq[s] + Count(table, s, i)
      invariant BuiltTo(freq, table, w, t, i)
    {
      NextOccurrence(freq, table, w, symbolNext, i);
      var s := table[i];
      var next := symbolNext[s];
      symbolNext := symbolNext[s := next + 1];
      t := AddCell(freq, table, w, t, i, next);
    }
  }

  // fse_build: the tables of a histogram.
  method FseBuild(counts: seq<nat>, w: nat) returns (t: Tables)
    requires 4 <= w && 0 < |counts| <= Pow2(w) && |counts| <= 900
    requires exists s :: 0 <= s < |counts| && counts[s] > 0
    ensures Coder(t, w) && |t.freq| == |counts| && Sum(t.freq, |counts|) == Pow2(w)
    ensures forall s :: 0 <= s < |counts| ==> (t.freq[s] > 0 <==> counts[s] > 0)
    ensures Sum(counts, |counts|) > 0 && OneWay(Nearest(counts, Pow2(w)), t.freq, Pow2(w))
    ensures Evenly(Nearest(counts, Pow2(w)), t.freq)
    ensures forall s: nat, v: nat :: s < |t.freq| && t.freq[s] > 0 && v < Pow2(w) ==> OneCell(t, w, s, v)
  {
    SumPositive(counts);
    var freq := QuantizeFreqs(counts, Pow2(w));
    var table := Spread(freq, w);
    forall s | 0 <= s < |freq|
      ensures freq[s] <= Pow2(w)
    {
      SumMono(freq, s + 1, |freq|);
    }
    t := BuildTables(freq, table, w);
    BuiltCoder(freq, table, w, t);
    BuiltPartitions(freq, table, w, t);
  }

  ghost predicate Built(freq: seq<nat>, table: seq<nat>, w: nat, t: Tables) {
    BuiltTo(freq, table, w, t, Pow2(w))
  }

  lemma BuiltCell(freq: seq<nat>, table: seq<nat>, w: nat, t: Tables, i: nat)
    requires Built(freq, table, w, t) && i < Pow2(w)
    ensures t.dsym[i] < |freq| && t.dbits[i] <= w && t.dbase[i] + Pow2(t.dbits[i]) <= Pow2(w)
  {
    OccurrenceRange(freq, table, w, i);
    CellFits(freq[table[i]], Occurrence(freq, table, i), w);
  }

  lemma BuiltEnc(freq: seq<nat>, table: seq<nat>, w: nat, t: Tables, s: nat, v: nat)
    requires Built(freq, table, w, t) && s < |freq| && freq[s] > 0 && v < Pow2(w)
    ensures t.enc[s][v] < Pow2(w) && InBlock(t, s, v, t.enc[s][v])
  {
    hide Built, SpreadTable, Slot, Occurrence, BitsOf, BaseOf;
    EncAt(freq, table, w, t, s, v);
    CellAt(freq, table, w, t, t.enc[s][v]);
    CellCovers(freq[s], Slot(freq[s], v + Pow2(w)), v, w);
  }

  lemma EncAt(freq: seq<nat>, table: seq<nat>, w: nat, t: Tables, s: nat, v: nat)
    requires Built(freq, table, w, t) && s < |freq| && freq[s] > 0 && v < Pow2(w)
    ensures |table| == Pow2(w) && freq[s] <= Pow2(w) && s < |t.enc| && v < |t.enc[s]| && t.enc[s][v] < |table|
    ensures table[t.enc[s][v]] == s && Occurrence(freq, table, t.enc[s][v]) == Slot(freq[s], v + Pow2(w))
  {
    hide Slot, Occurrence, DecodeTo;
    assert Count(table, s, Pow2(w)) == freq[s];
  }

  lemma CellAt(freq: seq<nat>, table: seq<nat>, w: nat, t: Tables, i: nat)
    requires Built(freq, table, w, t) && i < Pow2(w)
    ensures |table| == |t.dsym| == |t.dbits| == |t.dbase| == Pow2(w)
    ensures table[i] < |freq| && BitsOf(Occurrence(freq, table, i), w) == t.dbits[i]
    ensures t.dsym[i] == table[i] && t.dbase[i] == BaseOf(Occurrence(freq, table, i), w)
  {
    hide EncodeTo, Occurrence;
  }

  lemma BuiltCoder(freq: seq<nat>, table: seq<nat>, w: nat, t: Tables)
    requires Built(freq, table, w, t)
    ensures Coder(t, w)
  {
    forall i | 0 <= i < Pow2(w)
      ensures t.dsym[i] < |freq| && t.dbits[i] <= w && t.dbase[i] + Pow2(t.dbits[i]) <= Pow2(w)
    {
      BuiltCell(freq, table, w, t, i);
    }
    forall s, v | 0 <= s < |t.enc| && 0 <= v < Pow2(w) && freq[s] > 0
      ensures t.enc[s][v] < Pow2(w) && InBlock(t, s, v, t.enc[s][v])
    {
      BuiltEnc(freq, table, w, t, s, v);
    }
  }

  // A cell that leads to v carries the occurrence number that v halves to.
  lemma BlockOccurrence(freq: seq<nat>, table: seq<nat>, w: nat, t: Tables, s: nat, v: nat, j: nat)
    requires Built(freq, table, w, t) && s < |freq| && freq[s] > 0 && v < Pow2(w)
    requires j < Pow2(w) && InBlock(t, s, v, j)
    ensures table[j] == s && Occurrence(freq, table, j) == Slot(freq[s], v + Pow2(w))
  {
    OccurrenceRange(freq, table, w, j);
    CellCovers(freq[s], Occurrence(freq, table, j), v, w);
  }

  lemma BuiltPartitions(freq: seq<nat>, table: seq<nat>, w: nat, t: Tables)
    requires Built(freq, table, w, t)
    ensures forall s: nat, v: nat :: s < |freq| && freq[s] > 0 && v < Pow2(w) ==> OneCell(t, w, s, v)
  {
    forall s: nat, v: nat | s < |freq| && freq[s] > 0 && v < Pow2(w)
      ensures OneCell(t, w, s, v)
    {
      var i := t.enc[s][v];
      BuiltEnc(freq, table, w, t, s, v);
      forall j: nat | j < Pow2(w) && InBlock(t, s, v, j)
        ensures j == i
      {
        BlockOccurrence(freq, table, w, t, s, v, i);
        BlockOccurrence(freq, table, w, t, s, v, j);
        CountMono(table, s, if i < j then i else j, if i < j then j else i);
      }
      assert OnlyCell(t, w, s, v, i);
    }
  }

  // ---- coding rows ----

  ghost predicate Codable(t: Tables, row: seq<nat>) {
    forall k :: 0 <= k < |row| ==> row[k] < |t.freq| && t.freq[row[k]] > 0
  }

  // The encoder's state before symbol k, coding from the end: it starts from state 0.
  ghost function StateAt(t: Tables, w: nat, row: seq<nat>, k: nat): (s: nat)
    requires Coder(t, w) && Codable(t, row) && k <= |row|
    ensures s < Pow2(w)
    decreases |row| - k
  {
    if k == |row| then 0 else t.enc[row[k]][StateAt(t, w, row, k + 1)]
  }

  // The bits the decoder needs after symbol k to reach the next state.
  ghost function StepBits(t: Tables, w: nat, row: seq<nat>, k: nat): BitString
    requires Coder(t, w) && Codable(t, row) && k < |row|
  {
    var cell := StateAt(t, w, row, k);
    assert InBlock(t, row[k], StateAt(t, w, row, k + 1), cell);
    ToBits(StateAt(t, w, row, k + 1) - t.dbase[cell], t.dbits[cell])
  }

  ghost function BitsFrom(t: Tables, w: nat, row: seq<nat>, k: nat): BitString
    requires Coder(t, w) && Codable(t, row) && k <= |row|
    decreases |row| - k
  {
    if k == |row| then [] else StepBits(t, w, row, k) + BitsFrom(t, w, row, k + 1)
  }

  // A coded row: the decoder's first state, then the packed state bits.
  ghost function CodedRow(t: Tables, w: nat, row: seq<nat>): seq<byte>
    requires Coder(t, w) && Codable(t, row) && w <= 16
  {
    if row == [] then [] else LeBytes(StateAt(t, w, row, 0), 2) + PackBits(BitsFrom(t, w, row, 0))
  }

  // The symbols and the last state read by n decoding steps.
  ghost function DecodeFrom(t: Tables, w: nat, state: nat, bits: BitString, n: nat): (seq<nat>, nat)
    requires Coder(t, w) && state < Pow2(w)
    decreases n
  {
    if n == 0 then ([], state) else
      var next := t.dbase[state] + FromBits(Window(bits, t.dbits[state]));
      var rest := DecodeFrom(t, w, next, DropBits(bits, t.dbits[state]), n - 1);
      ([t.dsym[state]] + rest.0, rest.1)
  }

  // The encoder's step bits take the decoder from one encoder state to the next.
  lemma StepInverts(t: Tables, w: nat, row: seq<nat>, k: nat, tail: BitString)
    requires Coder(t, w) && Codable(t, row) && k < |row|
    ensures var cell, bits := StateAt(t, w, row, k), StepBits(t, w, row, k) + tail;
            && t.dsym[cell] == row[k]
            && t.dbase[cell] + FromBits(Window(bits, t.dbits[cell])) == StateAt(t, w, row, k + 1)
            && DropBits(bits, t.dbits[cell]) == tail
  {
    var cell, next, step := StateAt(t, w, row, k), StateAt(t, w, row, k + 1), StepBits(t, w, row, k);
    assert InBlock(t, row[k], next, cell);
    hide Coder, StateAt;
    FrontBits(step, tail);
    FromTo(next - t.dbase[cell], t.dbits[cell]);
    LowSmall(next - t.dbase[cell], t.dbits[cell]);
  }

  lemma FrontBits(step: BitString, tail: BitString)
    ensures Window(step + tail, |step|) == step && DropBits(step + tail, |step|) == tail
  {
  }

  lemma {:induction false} DecodeInverts(t: Tables, w: nat, row: seq<nat>, k: nat, tail: BitString)
    requires Coder(t, w) && Codable(t, row) && k <= |row|
    ensures DecodeFrom(t, w, StateAt(t, w, row, k), BitsFrom(t, w, row, k) + tail, |row| - k) == (row[k..], 0)
    decreases |row| - k
  {
    hide Coder, StepBits, StateAt, DecodeFrom, BitsFrom;
    if k < |row| {
      var step, rest := StepBits(t, w, row, k), BitsFrom(t, w, row, k + 1);
      BitsOfStep(t, w, row, k);
      assert (step + rest) + tail == step + (rest + tail);
      DecodeInverts(t, w, row, k + 1, tail);
      DecodeOneMore(t, w, row, k, step, rest + tail);
    } else {
      DecodeNone(t, w, row, tail);
    }
  }

  lemma BitsOfStep(t: Tables, w: nat, row: seq<nat>, k: nat)
    requires Coder(t, w) && Codable(t, row) && k < |row|
    ensures BitsFrom(t, w, row, k) == StepBits(t, w, row, k) + BitsFrom(t, w, row, k + 1)
  {
  }

  lemma DecodeNone(t: Tables, w: nat, row: seq<nat>, tail: BitString)
    requires Coder(t, w) && Codable(t, row)
    ensures DecodeFrom(t, w, StateAt(t, w, row, |row|), BitsFrom(t, w, row, |row|) + tail, 0) == (row[|row|..], 0)
  {
    assert row[|row|..] == [] && BitsFrom(t, w, row, |row|) == [] && StateAt(t, w, row, |row|) == 0;
  }

  lemma DecodeNext(t: Tables, w: nat, state: nat, bits: BitString, n: nat)
    requires Coder(t, w) && state < Pow2(w) && n > 0
    ensures state < |t.dsym| && state < |t.dbase| && state < |t.dbits|
    ensures var next := t.dbase[state] + FromBits(Window(bits, t.dbits[state]));
            && next < Pow2(w)
            && var rest := DecodeFrom(t, w, next, DropBits(bits, t.dbits[state]), n - 1);
               DecodeFrom(t, w, state, bits, n) == ([t.dsym[state]] + rest.0, rest.1)
  {
    hide FromBits, DropBits;
  }

  // One decoding step in front of the rest of the row.
  lemma DecodeOneMore(t: Tables, w: nat, row: seq<nat>, k: nat, step: BitString, rest: BitString)
    requires Coder(t, w) && Codable(t, row) && k < |row| && step == StepBits(t, w, row, k)
    requires DecodeFrom(t, w, StateAt(t, w, row, k + 1), rest, |row| - k - 1) == (row[k + 1..], 0)
    ensures DecodeFrom(t, w, StateAt(t, w, row, k), step + rest, |row| - k) == (row[k..], 0)
  {
    hide Coder, StepBits, StateAt, DecodeFrom, Window, DropBits, FromBits;
    StepInverts(t, w, row, k, rest);
    DecodeNext(t, w, StateAt(t, w, row, k), step + rest, |row| - k);
    assert row[k..] == [row[k]] + row[k + 1..];
  }

  lemma HeaderFits(w: nat, state: nat)
    requires w <= 16 && state < Pow2(w)
    ensures LeValue(LeBytes(state, 2)) == state
  {
    Pow2Mono(w, 16);
    Pow16();
    LeBack16(state);
  }

  // Decoding a coded row gives it back and ends in the encoder's seed state.
  lemma RowRoundTrip(t: Tables, w: nat, row: seq<nat>)
    requires Coder(t, w) && Codable(t, row) && w <= 16 && row != []
    ensures var c := CodedRow(t, w, row);
            && |c| >= 2 && LeValue(c[..2]) < Pow2(w)
            && DecodeFrom(t, w, LeValue(c[..2]), BytesBits(c[2..]), |row|) == (row, 0)
  {
    var bits := BitsFrom(t, w, row, 0);
    HeaderFits(w, StateAt(t, w, row, 0));
    PackBitsBits(bits);
    DecodeInverts(t, w, row, 0, Zeros(8 * |PackBits(bits)| - |bits|));
    var c := CodedRow(t, w, row);
    assert c[2..] == PackBits(bits) && c[..2] == LeBytes(StateAt(t, w, row, 0), 2);
    assert row[0..] == row;
  }

  // The backward pass: the bits and width of every step, and the decoder's first state.
  method BackwardPass(t: Tables, w: nat, sym: seq<nat>) returns (bitsBuf: seq<nat>, widthBuf: seq<nat>, state: nat)
    requires Coder(t, w) && Codable(t, sym)
    ensures state == StateAt(t, w, sym, 0) && |bitsBuf| == |sym| && |widthBuf| == |sym|
    ensures forall j :: 0 <= j < |sym| ==> widthBuf[j] <= w && ToBits(bitsBuf[j], widthBuf[j]) == StepBits(t, w, sym, j)
  {
    var n := |sym|;
    bitsBuf, widthBuf := seq(n, _ => 0), seq(n, _ => 0);
    state := 0;
    var k := n;
    while k > 0
      invariant 0 <= k <= n && |bitsBuf| == n && |widthBuf| == n
      invariant state == StateAt(t, w, sym, k)
      invariant forall j: nat :: k <= j < n ==> widthBuf[j] <= w && ToBits(bitsBuf[j], widthBuf[j]) == StepBits(t, w, sym, j)
    {
      k := k - 1;
      var cell := t.enc[sym[k]][state];
      assert InBlock(t, sym[k], state, cell);
      bitsBuf := bitsBuf[k := state - t.dbase[cell]];
      widthBuf := widthBuf[k := t.dbits[cell]];
      state := cell;
    }
  }

  // The forward pass packs the step bits in reading order.
  method ForwardPass(t: Tables, w: nat, sym: seq<nat>, bitsBuf: seq<nat>, widthBuf: seq<nat>,
                     out: array<byte>, off: nat, cap: nat) returns (used: nat)
    requires Coder(t, w) && Codable(t, sym) && w <= 16 && off + cap <= out.Length
    requires |bitsBuf| == |sym| && |widthBuf| == |sym|
    requires forall j :: 0 <= j < |sym| ==> widthBuf[j] <= w && ToBits(bitsBuf[j], widthBuf[j]) == StepBits(t, w, sym, j)
    modifies out
    ensures var p := PackBits(BitsFrom(t, w, sym, 0));
            used == |p| && (used <= cap ==> out[off..off + used] == p)
    ensures forall i :: 0 <= i < out.Length && !(off <= i < off + cap) ==> out[i] == old(out[i])
  {
    hide Coder, StepBits, BitsFrom, PackBits, Codable, ToBits;
    var bw := new BitWriter(out, off, cap);
    ghost var bits := BitsFrom(t, w, sym, 0);
    for j := 0 to |sym|
      invariant bw.Valid() && fresh(bw) && bw.buf == out && bw.off == off && bw.cap == cap
      invariant bits == bw.written + BitsFrom(t, w, sym, j)
      invariant forall i :: 0 <= i < out.Length && !(off <= i < off + cap) ==> out[i] == old(out[i])
    {
      ghost var x, y, z := bw.written, StepBits(t, w, sym, j), BitsFrom(t, w, sym, j + 1);
      BitsOfStep(t, w, sym, j);
      assert x + (y + z) == (x + y) + z;
      bw.Put(bitsBuf[j], widthBuf[j]);
    }
    NoMoreBits(t, w, sym);
    assert bits == bw.written;
    used := bw.Finish();
  }

  lemma NoMoreBits(t: Tables, w: nat, row: seq<nat>)
    requires Coder(t, w) && Codable(t, row)
    ensures BitsFrom(t, w, row, |row|) == []
  {
  }

  // fse_encode_row: writes the coded row at out[off..]; -1 if it needs more than cap bytes.
  method EncodeRow(t: Tables, w: nat, sym: seq<nat>, out: array<byte>, off: nat, cap: nat) returns (used: int)
    requires Coder(t, w) && Codable(t, sym) && w <= 16 && off + cap <= out.Length
    modifies out
    ensures var c := CodedRow(t, w, sym);
            && used == (if |c| <= cap then |c| else -1)
            && (|c| <= cap ==> out[off..off + |c|] == c)
    ensures forall i :: 0 <= i < out.Length && !(off <= i < off + cap) ==> out[i] == old(out[i])
  {
    if |sym| <= 0 {
      return 0;
    }
    hide Coder, StepBits, BitsFrom, StateAt, PackBits, Codable, LeBytes;
    var bitsBuf, widthBuf, state := BackwardPass(t, w, sym);
    ghost var bits := BitsFrom(t, w, sym, 0);
    var totalBits := TotalWidth(t, w, sym, bitsBuf, widthBuf);
    if 2 + (totalBits + 7) / 8 > cap {
      return -1;
    }
    var m := ForwardPass(t, w, sym, bitsBuf, widthBuf, out, off + 2, cap - 2);
    out[off], out[off + 1] := state % 256, state / 256 % 256;
    TwoBytes(state);
    HeaderAndBits(out[..], off, m, PackBits(bits));
    used := 2 + m;
  }

  lemma HeaderAndBits(b: seq<byte>, off: nat, m: nat, p: seq<byte>)
    requires off + 2 + m <= |b| && b[off + 2..off + 2 + m] == p
    ensures b[off..off + 2 + m] == [b[off], b[off + 1]] + p
  {
  }

  lemma TwoBytes(x: nat)
    ensures LeBytes(x, 2) == [x % 256, x / 256 % 256]
  {
    assert LeBytes(x / 256 / 256, 0) == [];
    assert LeBytes(x / 256, 1) == [x / 256 % 256] + [];
  }

  // The number of bits the forward pass will write.
  method TotalWidth(t: Tables, w: nat, sym: seq<nat>, ghost bitsBuf: seq<nat>, widthBuf: seq<nat>) returns (total: nat)
    requires Coder(t, w) && Codable(t, sym) && |bitsBuf| == |sym| && |widthBuf| == |sym|
    requires forall j :: 0 <= j < |sym| ==> ToBits(bitsBuf[j], widthBuf[j]) == StepBits(t, w, sym, j)
    ensures total == |BitsFrom(t, w, sym, 0)|
  {
    hide Coder, StepBits, BitsFrom, Codable, ToBits;
    total := 0;
    for j := 0 to |sym|
      invariant total + |BitsFrom(t, w, sym, j)| == |BitsFrom(t, w, sym, 0)|
    {
      BitsOfStep(t, w, sym, j);
      assert |StepBits(t, w, sym, j)| == |ToBits(bitsBuf[j], widthBuf[j])| == widthBuf[j];
      total := total + widthBuf[j];
    }
    NoMoreBits(t, w, sym);
  }

  // done symbols have been decoded; n more from state lead to goal.
  ghost predicate OnTrack(t: Tables, w: nat, goal: (seq<nat>, nat), done: seq<nat>, state: nat, rest: BitString, n: nat) {
    && Coder(t, w) && state < Pow2(w)
    && goal.0 == done + DecodeFrom(t, w, state, rest, n).0
    && goal.1 == DecodeFrom(t, w, state, rest, n).1
  }

  lemma StayOnTrack(t: Tables, w: nat, goal: (seq<nat>, nat), done: seq<nat>, state: nat, rest: BitString, n: nat)
    requires n > 0 && OnTrack(t, w, goal, done, state, rest, n)
    ensures OnTrack(t, w, goal, done + [t.dsym[state]], t.dbase[state] + FromBits(Window(rest, t.dbits[state])),
                    DropBits(rest, t.dbits[state]), n - 1)
  {
    hide Coder, DecodeFrom, FromBits, Window, DropBits;
    DecodeUnfolds(t, w, state, rest, n);
    var s, next := t.dsym[state], t.dbase[state] + FromBits(Window(rest, t.dbits[state]));
    var tail := DecodeFrom(t, w, next, DropBits(rest, t.dbits[state]), n - 1).0;
    assert done + ([s] + tail) == (done + [s]) + tail;
  }

  lemma DecodeUnfolds(t: Tables, w: nat, state: nat, rest: BitString, n: nat)
    requires n > 0 && Coder(t, w) && state < Pow2(w)
    ensures state < |t.dsym| == |t.dbits| == |t.dbase|
    ensures var next := t.dbase[state] + FromBits(Window(rest, t.dbits[state]));
            && next < Pow2(w)
            && DecodeFrom(t, w, state, rest, n).0
               == [t.dsym[state]] + DecodeFrom(t, w, next, DropBits(rest, t.dbits[state]), n - 1).0
            && DecodeFrom(t, w, state, rest, n).1
               == DecodeFrom(t, w, next, DropBits(rest, t.dbits[state]), n - 1).1
  {
    hide Window, DropBits;
  }

  lemma TrackCell(t: Tables, w: nat, state: nat)
    requires Coder(t, w) && state < Pow2(w)
    ensures state < |t.dsym| == |t.dbits| == |t.dbase| && t.dbits[state] <= w
  {
  }

  // One decoding step: a table lookup and a bit read.
  method DecodeOne(t: Tables, w: nat, state: nat, r: BitReader, ghost goal: (seq<nat>, nat), ghost done: seq<nat>, ghost n: nat)
    returns (s: nat, next: nat)
    requires n > 0 && w <= 16 && r.Valid() && OnTrack(t, w, goal, done, state, r.Rest(), n)
    modifies r
    ensures r.Valid() && OnTrack(t, w, goal, done + [s], next, r.Rest(), n - 1)
  {
    hide Coder, DecodeFrom;
    TrackCell(t, w, state);
    StayOnTrack(t, w, goal, done, state, r.Rest(), n);
    s := t.dsym[state];
    var bits := r.Get(t.dbits[state]);
    next := t.dbase[state] + bits;
  }

  // The decoding loop of fse_decode_row, from a given state.
  method DecodeSteps(t: Tables, w: nat, state0: nat, r: BitReader, n: nat, symOut: array<nat>, ghost goal: (seq<nat>, nat))
    returns (state: nat)
    requires w <= 16 && n <= symOut.Length && r.Valid() && OnTrack(t, w, goal, [], state0, r.Rest(), n)
    modifies symOut, r
    ensures (symOut[..n], state) == goal
  {
    hide Coder, DecodeFrom;
    state := state0;
    ghost var done := [];
    for k := 0 to n
      invariant r.Valid() && OnTrack(t, w, goal, done, state, r.Rest(), n - k)
      invariant |done| == k && forall j :: 0 <= j < k ==> symOut[j] == done[j]
    {
      var s;
      s, state := DecodeOne(t, w, state, r, goal, done, n - k);
      done := done + [s];
      symOut[k] := s;
    }
    Arrived(t, w, goal, done, state, r.Rest());
    assert symOut[..n] == done;
  }

  lemma Arrived(t: Tables, w: nat, goal: (seq<nat>, nat), done: seq<nat>, state: nat, rest: BitString)
    requires OnTrack(t, w, goal, done, state, rest, 0)
    ensures goal == (done, state)
  {
    assert done + [] == done;
  }

  // fse_decode_row.
  method DecodeRow(t: Tables, w: nat, payload: seq<byte>, n: nat, symOut: array<nat>) returns (ghost last: nat)
    requires Coder(t, w) && w <= 16 && n <= symOut.Length
    requires n > 0 ==> |payload| >= 2 && LeValue(payload[..2]) < Pow2(w)
    modifies symOut
    ensures n > 0 ==> (symOut[..n], last) == DecodeFrom(t, w, LeValue(payload[..2]), BytesBits(payload[2..]), n)
  {
    last := 0;
    if n <= 0 {
      return;
    }
    var state := LeValue(payload[..2]);
    var r := new BitReader(payload[2..]);
    ghost var goal := DecodeFrom(t, w, state, BytesBits(payload[2..]), n);
    assert goal.0 == [] + goal.0;
    last := DecodeSteps(t, w, state, r, n, symOut, goal);
  }
}
