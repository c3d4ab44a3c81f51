/** The interleaved range-ANS row codec of c/codec_row_rans.h: lanes of 32-bit states with
    16-bit renormalisation words. */
module Rans {
  import opened Arith
  import opened Bits
  import opened Quantize

  const MTOTAL: nat := 4096
  const RANS_L: nat := 65536
  const WORD: nat := 65536        // 2^16
  const STATE_END: nat := 0x1_0000_0000

  datatype Codebook = Codebook(freq: seq<nat>, cum: seq<nat>, slot2sym: seq<nat>)

  // Slot k belongs to symbol s.
  predicate InRange(cb: Codebook, s: nat, k: int) {
    s < |cb.freq| && s < |cb.cum| && cb.cum[s] <= k < cb.cum[s] + cb.freq[s]
  }

  // The symbol ranges tile the slots, and slot2sym names the range of every slot.
  ghost predicate ValidBook(cb: Codebook) {
    && |cb.cum| == |cb.freq| + 1 && |cb.slot2sym| == MTOTAL
    && (forall s: nat, k :: InRange(cb, s, k) ==> 0 <= k < MTOTAL && cb.slot2sym[k] == s)
    && forall k :: 0 <= k < MTOTAL ==> InRange(cb, cb.slot2sym[k], k)
  }

  method CumulativeSums(freq: seq<nat>) returns (cum: seq<nat>)
    ensures |cum| == |freq| + 1 && forall s :: 0 <= s <= |freq| ==> cum[s] == Sum(freq, s)
  {
    cum := [0];
    for s := 0 to |freq|
      invariant |cum| == s + 1 && forall u :: 0 <= u <= s ==> cum[u] == Sum(freq, u)
    {
      cum := cum + [cum[s] + freq[s]];
    }
  }

  // slot2sym is right for the slots of the symbols below s.
  ghost predicate SlotsTo(freq: seq<nat>, slot2sym: seq<nat>, s: nat)
    requires s <= |freq|
  {
    && |slot2sym| == MTOTAL
    && forall k :: 0 <= k < Sum(freq, s) && k < MTOTAL ==>
         slot2sym[k] < s && Sum(freq, slot2sym[k]) <= k < Sum(freq, slot2sym[k]) + freq[slot2sym[k]]
  }

  method FillSlots(freq: seq<nat>, cum: seq<nat>, slot2sym: seq<nat>, s: nat) returns (r: seq<nat>)
    requires s < |freq| && |cum| == |freq| + 1 && cum[s] == Sum(freq, s) && cum[s + 1] == Sum(freq, s + 1) <= MTOTAL
    requires SlotsTo(freq, slot2sym, s)
    ensures SlotsTo(freq, r, s + 1)
  {
    r := slot2sym;
    for slot := cum[s] to cum[s + 1]
      invariant |r| == MTOTAL
      invariant forall k :: 0 <= k < cum[s] ==> r[k] == slot2sym[k]
      invariant forall k :: cum[s] <= k < slot ==> r[k] == s
    {
      r := r[slot := s];
    }
  }

  method FillAll(freq: seq<nat>, cum: seq<nat>) returns (slot2sym: seq<nat>)
    requires |cum| == |freq| + 1 && Sum(freq, |freq|) == MTOTAL
    requires forall s :: 0 <= s <= |freq| ==> cum[s] == Sum(freq, s)
    ensures SlotsTo(freq, slot2sym, |freq|)
  {
    slot2sym := seq(MTOTAL, _ => 0);
    assert SlotsTo(freq, slot2sym, 0);
    for s := 0 to |freq|
      invariant SlotsTo(freq, slot2sym, s)
    {
      hide SlotsTo, Sum;
      SumMono(freq, s + 1, |freq|);
      slot2sym := FillSlots(freq, cum, slot2sym, s);
    }
  }

  // rans_build: the codebook of a histogram.
  method RansBuild(counts: seq<nat>) returns (cb: Codebook)
    requires |counts| <= 900 && exists s :: 0 <= s < |counts| && counts[s] > 0
    ensures Sum(counts, |counts|) > 0 && ValidBook(cb) && |cb.freq| == |counts|
    ensures forall s :: 0 <= s < |counts| ==> (cb.freq[s] > 0 <==> counts[s] > 0)
    ensures Sum(cb.freq, |counts|) == 4096 && OneWay(Nearest(counts, 4096), cb.freq, 4096)
    ensures Evenly(Nearest(counts, 4096), cb.freq)
    ensures forall s :: 0 <= s <= |counts| ==> cb.cum[s] == Sum(cb.freq, s)
  {
    hide Evenly, OneWay, Nearest, Sum;
    SumPositive(counts);
    var freq := QuantizeFreqs(counts, MTOTAL);
    var cum := CumulativeSums(freq);
    var slot2sym := FillAll(freq, cum);
    cb := Codebook(freq, cum, slot2sym);
    BuiltBook(cb);
  }

  lemma BuiltBook(cb: Codebook)
    requires |cb.cum| == |cb.freq| + 1 && forall s :: 0 <= s <= |cb.freq| ==> cb.cum[s] == Sum(cb.freq, s)
    requires Sum(cb.freq, |cb.freq|) == MTOTAL && SlotsTo(cb.freq, cb.slot2sym, |cb.freq|)
    ensures ValidBook(cb)
  {
    forall s: nat, k | InRange(cb, s, k)
      ensures 0 <= k < MTOTAL && cb.slot2sym[k] == s
    {
      SumMono(cb.freq, s + 1, |cb.freq|);
      var u := cb.slot2sym[k];
      if u < s {
        SumMono(cb.freq, u + 1, s);
      } else if u > s {
        SumMono(cb.freq, s + 1, u);
      }
    }
  }

  // ---- one lane ----

  // A coder lane: the state and the words still to be read, the next one first.
  datatype Lane = Lane(x: nat, words: seq<nat>)

  ghost predicate Live(l: Lane) {
    && RANS_L <= l.x < STATE_END
    && forall i :: 0 <= i < |l.words| ==> l.words[i] < WORD
  }

  function Quotient(x: nat, f: nat): (q: nat)
    requires f > 0
    ensures f * q <= x < f * q + f
  {
    x / f
  }

  // Folding a symbol of frequency f and range start c into state x.
  function Fold(x: nat, f: nat, c: nat): nat
    requires f > 0
  {
    Quotient(x, f) * MTOTAL + (x - f * Quotient(x, f)) + c
  }

  // Encoding s: shift out one word if the state is too large for s, then fold s in.
  function Push(cb: Codebook, l: Lane, s: nat): Lane
    requires ValidBook(cb) && s < |cb.freq| && cb.freq[s] > 0
  {
    var f := cb.freq[s];
    if l.x >= 0x10_0000 * f
    then Lane(Fold(l.x / WORD, f, cb.cum[s]), [l.x % WORD] + l.words)
    else Lane(Fold(l.x, f, cb.cum[s]), l.words)
  }

  // Decoding: the symbol of the state's slot and the state before it was folded in.
  function Unfold(cb: Codebook, x: nat): (r: (nat, nat))
    requires ValidBook(cb)
    ensures r.0 < |cb.freq|
  {
    var slot := x % MTOTAL;
    var s := cb.slot2sym[slot];
    assert InRange(cb, s, slot);
    (s, cb.freq[s] * (x / MTOTAL) + (slot - cb.cum[s]))
  }

  // Reads words while the state is too small and words remain.
  function Refill(x: nat, words: seq<nat>): Lane
    decreases |words|
  {
    if x < RANS_L && |words| > 0 then Refill(x * WORD + words[0], words[1..]) else Lane(x, words)
  }

  // One decoding step of a lane.
  function Pop(cb: Codebook, l: Lane): (nat, Lane)
    requires ValidBook(cb)
  {
    var (s, x) := Unfold(cb, l.x);
    (s, Refill(x, l.words))
  }

  lemma FoldBounds(x: nat, f: nat, c: nat)
    requires 0 < f && f + c <= MTOTAL && 16 * f <= x < 0x10_0000 * f
    ensures RANS_L <= Fold(x, f, c) < STATE_END
    ensures Fold(x, f, c) / MTOTAL == Quotient(x, f)
    ensures Fold(x, f, c) % MTOTAL == x - f * Quotient(x, f) + c
  {
    var q := Quotient(x, f);
    Distribute(f, q, 1);
    CancelLt(f, 16, q + 1);
    CancelLt(f, q, 0x10_0000);
    DivUnique(Fold(x, f, c), MTOTAL, q, x - f * q + c);
  }

  lemma CancelLt(d: nat, a: nat, b: nat)
    requires d > 0 && d * a < d * b
    ensures a < b
  {
    if a >= b {
      MulMono(b, a, d);
    }
  }

  lemma UnfoldFold(cb: Codebook, x: nat, s: nat)
    requires ValidBook(cb) && s < |cb.freq| && cb.freq[s] > 0 && 16 * cb.freq[s] <= x < 0x10_0000 * cb.freq[s]
    ensures RANS_L <= Fold(x, cb.freq[s], cb.cum[s]) < STATE_END
    ensures Unfold(cb, Fold(x, cb.freq[s], cb.cum[s])) == (s, x)
  {
    var f, c := cb.freq[s], cb.cum[s];
    assert InRange(cb, s, c + f - 1);
    FoldBounds(x, f, c);
    assert InRange(cb, s, x - f * Quotient(x, f) + c);
  }

  // Renormalising leaves the state where folding in s is safe, after at most one word.
  lemma SpillOnce(x: nat, f: nat)
    requires RANS_L <= x < STATE_END && 0 < f <= MTOTAL
    ensures x >= 0x10_0000 * f ==> x / WORD < RANS_L && 16 * f <= x / WORD < 0x10_0000 * f
    ensures x < 0x10_0000 * f ==> 16 * f <= x
  {
  }

  // Decoding undoes encoding: it returns the symbol and restores state and words exactly.
  lemma PopPush(cb: Codebook, l: Lane, s: nat)
    requires ValidBook(cb) && s < |cb.freq| && cb.freq[s] > 0 && Live(l)
    ensures Live(Push(cb, l, s)) && Pop(cb, Push(cb, l, s)) == (s, l)
    ensures |Push(cb, l, s).words| <= |l.words| + 1
  {
    var f, c := cb.freq[s], cb.cum[s];
    assert InRange(cb, s, c + f - 1);
    SpillOnce(l.x, f);
    var p := Push(cb, l, s);
    if l.x >= 0x10_0000 * f {
      UnfoldFold(cb, l.x / WORD, s);
      assert p.words[1..] == l.words;
      assert Refill(l.x / WORD, p.words) == Refill(l.x, l.words);
    } else {
      UnfoldFold(cb, l.x, s);
    }
  }

  // ---- interleaved rows ----

  ghost predicate Codable(cb: Codebook, row: seq<nat>) {
    forall i :: 0 <= i < |row| ==> row[i] < |cb.freq| && cb.freq[row[i]] > 0
  }

  function StartLanes(n: nat): (r: seq<Lane>)
    ensures |r| == n
  {
    seq(n, _ => Lane(RANS_L, []))
  }

  // The n lanes after encoding symbols k.. from the end; symbol i belongs to lane i % n.
  ghost function LanesAt(cb: Codebook, row: seq<nat>, n: nat, k: nat): (r: seq<Lane>)
    requires ValidBook(cb) && Codable(cb, row) && n > 0 && k <= |row|
    ensures |r| == n
    decreases |row| - k
  {
    if k == |row| then StartLanes(n) else
      var next := LanesAt(cb, row, n, k + 1);
      next[k % n := Push(cb, next[k % n], row[k])]
  }

  // Every lane state stays in [2^16, 2^32), and each symbol adds at most one word.
  lemma {:induction false} LanesLive(cb: Codebook, row: seq<nat>, n: nat, k: nat)
    requires ValidBook(cb) && Codable(cb, row) && n > 0 && k <= |row|
    ensures forall l :: 0 <= l < n ==> Live(LanesAt(cb, row, n, k)[l])
    ensures forall l :: 0 <= l < n ==> |LanesAt(cb, row, n, k)[l].words| <= SymbolsOfLane(|row|, n, l, k)
    decreases |row| - k
  {
    if k < |row| {
      LanesLive(cb, row, n, k + 1);
      PopPush(cb, LanesAt(cb, row, n, k + 1)[k % n], row[k]);
    }
  }

  // How many of the positions k..len-1 belong to lane l.
  ghost function SymbolsOfLane(len: nat, n: nat, l: nat, k: nat): nat
    requires n > 0 && k <= len
    decreases len - k
  {
    if k == len then 0 else SymbolsOfLane(len, n, l, k + 1) + (if k % n == l then 1 else 0)
  }

  // The symbols decoded from position k on, and the lanes left over.
  ghost function DecodeLanes(cb: Codebook, lanes: seq<Lane>, k: nat, len: nat): (seq<nat>, seq<Lane>)
    requires ValidBook(cb) && |lanes| > 0 && k <= len
    decreases len - k
  {
    if k == len then ([], lanes) else
      var l := k % |lanes|;
      var (s, lane) := Pop(cb, lanes[l]);
      var rest := DecodeLanes(cb, lanes[l := lane], k + 1, len);
      ([s] + rest.0, rest.1)
  }

  lemma {:induction false} DecodeInverts(cb: Codebook, row: seq<nat>, n: nat, k: nat)
    requires ValidBook(cb) && Codable(cb, row) && n > 0 && k <= |row|
    ensures DecodeLanes(cb, LanesAt(cb, row, n, k), k, |row|) == (row[k..], StartLanes(n))
    decreases |row| - k
  {
    if k < |row| {
      var next, l := LanesAt(cb, row, n, k + 1), k % n;
      LanesLive(cb, row, n, k + 1);
      PopPush(cb, next[l], row[k]);
      assert LanesAt(cb, row, n, k)[l := next[l]] == next;
      DecodeInverts(cb, row, n, k + 1);
      assert row[k..] == [row[k]] + row[k + 1..];
    }
  }

  // ---- row layout: states, substream lengths, substreams ----

  function WordBytes(words: seq<nat>): (b: seq<byte>)
    ensures |b| == 2 * |words|
  {
    if words == [] then [] else LeBytes(words[0], 2) + WordBytes(words[1..])
  }

  function WordsOf(b: seq<byte>): seq<nat> {
    if |b| < 2 then [] else [LeValue(b[..2])] + WordsOf(b[2..])
  }

  lemma {:induction false} WordsBack(words: seq<nat>)
    requires forall i :: 0 <= i < |words| ==> words[i] < WORD
    ensures WordsOf(WordBytes(words)) == words
  {
    if words != [] {
      LeBack16(words[0]);
      WordsBack(words[1..]);
      var b := WordBytes(words);
      assert b[..2] == LeBytes(words[0], 2) && b[2..] == WordBytes(words[1..]);
    }
  }

  function StateBytes(lanes: seq<Lane>, l: nat): (b: seq<byte>)
    requires l <= |lanes|
    ensures |b| == 4 * l
  {
    if l == 0 then [] else StateBytes(lanes, l - 1) + LeBytes(lanes[l - 1].x, 4)
  }

  // The source stores each substream length in a uint16.
  function LengthBytes(lanes: seq<Lane>, l: nat): (b: seq<byte>)
    requires l <= |lanes|
    ensures |b| == 2 * l
  {
    if l == 0 then [] else LengthBytes(lanes, l - 1) + LeBytes(2 * |lanes[l - 1].words| % WORD, 2)
  }

  function StreamBytes(lanes: seq<Lane>, l: nat): (b: seq<byte>)
    requires l <= |lanes|
  {
    if l == 0 then [] else StreamBytes(lanes, l - 1) + WordBytes(lanes[l - 1].words)
  }

  function LaneBytes(lanes: seq<Lane>): seq<byte> {
    StateBytes(lanes, |lanes|) + LengthBytes(lanes, |lanes|) + StreamBytes(lanes, |lanes|)
  }

  ghost function CodedRow(cb: Codebook, row: seq<nat>, n: nat): seq<byte>
    requires ValidBook(cb) && Codable(cb, row) && n > 0
  {
    if row == [] then [] else LaneBytes(LanesAt(cb, row, n, 0))
  }

  // The decoder's view of the header of a row with n lanes.
  function StreamLen(p: seq<byte>, n: nat, l: nat): nat
    requires l < n && 6 * n <= |p|
  {
    LeValue(p[4 * n + 2 * l..4 * n + 2 * l + 2])
  }

  function StreamStart(p: seq<byte>, n: nat, l: nat): nat
    requires l <= n && 6 * n <= |p|
  {
    if l == 0 then 6 * n else StreamStart(p, n, l - 1) + StreamLen(p, n, l - 1)
  }

  // The header is complete and every substream lies inside the row.
  ghost predicate WellFormed(p: seq<byte>, n: nat) {
    6 * n <= |p| && StreamStart(p, n, n) <= |p|
  }

  lemma {:induction false} StartMono(p: seq<byte>, n: nat, l: nat, m: nat)
    requires l <= m <= n && 6 * n <= |p|
    ensures 6 * n <= StreamStart(p, n, l) <= StreamStart(p, n, m)
    decreases m
  {
    if l < m {
      StartMono(p, n, l, m - 1);
    } else if m > 0 {
      StartMono(p, n, m - 1, m - 1);
    }
  }

  ghost function ParsedLane(p: seq<byte>, n: nat, l: nat): Lane
    requires l < n && WellFormed(p, n)
  {
    StartMono(p, n, l + 1, n);
    StartMono(p, n, l, l);
    Lane(LeValue(p[4 * l..4 * l + 4]), WordsOf(p[StreamStart(p, n, l)..StreamStart(p, n, l + 1)]))
  }

  ghost predicate LengthsFit(lanes: seq<Lane>) {
    forall l :: 0 <= l < |lanes| ==> 2 * |lanes[l].words| < WORD
  }

  lemma {:induction false} StateSlice(lanes: seq<Lane>, l: nat, m: nat)
    requires l < m <= |lanes|
    ensures StateBytes(lanes, m)[4 * l..4 * l + 4] == LeBytes(lanes[l].x, 4)
    ensures LengthBytes(lanes, m)[2 * l..2 * l + 2] == LeBytes(2 * |lanes[l].words| % WORD, 2)
  {
    if l < m - 1 {
      StateSlice(lanes, l, m - 1);
      assert StateBytes(lanes, m)[4 * l..4 * l + 4] == StateBytes(lanes, m - 1)[4 * l..4 * l + 4];
      assert LengthBytes(lanes, m)[2 * l..2 * l + 2] == LengthBytes(lanes, m - 1)[2 * l..2 * l + 2];
    }
  }

  lemma {:induction false} StreamSlice(lanes: seq<Lane>, l: nat, m: nat)
    requires l < m <= |lanes|
    ensures |StreamBytes(lanes, l)| + 2 * |lanes[l].words| <= |StreamBytes(lanes, m)|
    ensures StreamBytes(lanes, m)[|StreamBytes(lanes, l)|..|StreamBytes(lanes, l)| + 2 * |lanes[l].words|]
         == WordBytes(lanes[l].words)
  {
    hide WordBytes;
    if l < m - 1 {
      StreamSlice(lanes, l, m - 1);
      SliceOfHead(StreamBytes(lanes, m - 1), WordBytes(lanes[m - 1].words),
                  |StreamBytes(lanes, l)|, |StreamBytes(lanes, l)| + 2 * |lanes[l].words|);
    }
  }

  lemma LengthParses(lanes: seq<Lane>, l: nat)
    requires l < |lanes| && LengthsFit(lanes)
    ensures StreamLen(LaneBytes(lanes), |lanes|, l) == 2 * |lanes[l].words|
  {
    hide StateBytes, LengthBytes, StreamBytes, LeBytes, LeValue;
    var n := |lanes|;
    StateSlice(lanes, l, n);
    SliceOfMiddle(StateBytes(lanes, n), LengthBytes(lanes, n), StreamBytes(lanes, n), 2 * l, 2 * l + 2);
    LeBack16(2 * |lanes[l].words|);
  }

  lemma {:induction false} StartParses(lanes: seq<Lane>, l: nat)
    requires l <= |lanes| && LengthsFit(lanes)
    ensures StreamStart(LaneBytes(lanes), |lanes|, l) == 6 * |lanes| + |StreamBytes(lanes, l)|
  {
    if l > 0 {
      StartParses(lanes, l - 1);
      LengthParses(lanes, l - 1);
    }
  }

  // The layout loses nothing: each lane is read back from the row.
  lemma LaneParses(lanes: seq<Lane>, l: nat)
    requires l < |lanes| && LengthsFit(lanes) && Live(lanes[l])
    ensures WellFormed(LaneBytes(lanes), |lanes|)
    ensures ParsedLane(LaneBytes(lanes), |lanes|, l) == lanes[l]
  {
    StartParses(lanes, |lanes|);
    StateParses(lanes, l);
    StreamParses(lanes, l);
  }

  lemma StateParses(lanes: seq<Lane>, l: nat)
    requires l < |lanes| && Live(lanes[l])
    ensures LeValue(LaneBytes(lanes)[4 * l..4 * l + 4]) == lanes[l].x
  {
    var p, n := LaneBytes(lanes), |lanes|;
    StateSlice(lanes, l, n);
    assert p[4 * l..4 * l + 4] == StateBytes(lanes, n)[4 * l..4 * l + 4];
    LeBack32(lanes[l].x);
  }

  lemma StreamAt(lanes: seq<Lane>, l: nat)
    requires l < |lanes|
    ensures var p, i := LaneBytes(lanes), 6 * |lanes| + |StreamBytes(lanes, l)|;
            i + 2 * |lanes[l].words| <= |p| && p[i..i + 2 * |lanes[l].words|] == WordBytes(lanes[l].words)
  {
    hide StateBytes, LengthBytes, StreamBytes, WordBytes;
    var n := |lanes|;
    StreamSlice(lanes, l, n);
    var i := |StreamBytes(lanes, l)|;
    SliceOfTail(StateBytes(lanes, n) + LengthBytes(lanes, n), StreamBytes(lanes, n), i, i + 2 * |lanes[l].words|);
  }

  lemma StreamParses(lanes: seq<Lane>, l: nat)
    requires l < |lanes| && LengthsFit(lanes) && Live(lanes[l]) && WellFormed(LaneBytes(lanes), |lanes|)
    ensures var p, n := LaneBytes(lanes), |lanes|;
            && StreamStart(p, n, l) <= StreamStart(p, n, l + 1) <= |p|
            && WordsOf(p[StreamStart(p, n, l)..StreamStart(p, n, l + 1)]) == lanes[l].words
  {
    hide LaneBytes, StreamStart, WordBytes, WordsOf, StreamBytes, StreamLen;
    var n := |lanes|;
    StartParses(lanes, l);
    StreamAt(lanes, l);
    WordsBack(lanes[l].words);
    NextStart(lanes, l);
    StartMono(LaneBytes(lanes), n, l + 1, n);
  }

  lemma NextStart(lanes: seq<Lane>, l: nat)
    requires l < |lanes| && LengthsFit(lanes)
    ensures StreamStart(LaneBytes(lanes), |lanes|, l + 1)
         == StreamStart(LaneBytes(lanes), |lanes|, l) + 2 * |lanes[l].words|
  {
    hide LaneBytes;
    LengthParses(lanes, l);
  }

  lemma SliceOfMiddle(a: seq<byte>, b: seq<byte>, c: seq<byte>, i: nat, j: nat)
    requires i <= j <= |b|
    ensures (a + b + c)[|a| + i..|a| + j] == b[i..j]
  {
  }

  lemma SliceOfTail(a: seq<byte>, b: seq<byte>, i: nat, j: nat)
    requires i <= j <= |b|
    ensures (a + b)[|a| + i..|a| + j] == b[i..j]
  {
  }

  // Decoding a coded row gives it back, leaves every lane at the bound and every substream consumed.
  lemma RowRoundTrip(cb: Codebook, row: seq<nat>, n: nat)
    requires ValidBook(cb) && Codable(cb, row) && n > 0 && row != []
    requires LengthsFit(LanesAt(cb, row, n, 0))
    ensures var p := CodedRow(cb, row, n);
            && WellFormed(p, n)
            && DecodeLanes(cb, ParsedLanes(p, n), 0, |row|) == (row, StartLanes(n))
  {
    var lanes, p := LanesAt(cb, row, n, 0), CodedRow(cb, row, n);
    LanesLive(cb, row, n, 0);
    forall l | 0 <= l < n
      ensures WellFormed(p, n) && ParsedLane(p, n, l) == lanes[l]
    {
      LaneParses(lanes, l);
    }
    LaneParses(lanes, 0);
    assert ParsedLanes(p, n) == lanes;
    DecodeInverts(cb, row, n, 0);
    assert row[0..] == row;
  }

  // ---- exactly which rows survive ----

  // The lanes the decoder reads from a row of bytes.
  ghost function ParsedLanes(p: seq<byte>, n: nat): (lanes: seq<Lane>)
    requires WellFormed(p, n)
    ensures |lanes| == n
  {
    seq(n, l requires 0 <= l < n => ParsedLane(p, n, l))
  }

  // A lane the decoder can no longer bring back: its state is below the bound and it has no words.
  predicate Spent(l: Lane) {
    l.x < RANS_L && l.words == []
  }

  lemma ScaleBounds(f: nat, q: nat, r: nat)
    requires 0 < f <= MTOTAL && 16 <= q < 0x10_0000 && r < f
    ensures 16 * f <= f * q + r < 0x10_0000 * f && Quotient(f * q + r, f) == q
  {
    DivUnique(f * q + r, f, q, r);
    MulMono(16, q, f);
    MulMono(q + 1, 0x10_0000, f);
    Distribute(f, q, 1);
  }

  // What decoding a live lane folds out, before it refills.
  lemma UnfoldLive(cb: Codebook, x: nat)
    requires ValidBook(cb) && RANS_L <= x < STATE_END
    ensures var (s, u) := Unfold(cb, x);
            && cb.freq[s] > 0 && 16 * cb.freq[s] <= u < 0x10_0000 * cb.freq[s]
            && Fold(u, cb.freq[s], cb.cum[s]) == x
  {
    var slot := x % MTOTAL;
    var s := cb.slot2sym[slot];
    assert InRange(cb, s, slot);
    var f, c := cb.freq[s], cb.cum[s];
    assert InRange(cb, s, c) && InRange(cb, s, c + f - 1);
    ScaleBounds(f, x / MTOTAL, slot - c);
  }

  // Decoding a symbol from a live lane either is undone by encoding it or spends the lane.
  lemma PushPop(cb: Codebook, l: Lane)
    requires ValidBook(cb) && Live(l)
    ensures var (s, next) := Pop(cb, l);
            cb.freq[s] > 0 && (Spent(next) || (Live(next) && Push(cb, next, s) == l))
  {
    hide Unfold, Fold;
    var (s, u) := Unfold(cb, l.x);
    UnfoldLive(cb, l.x);
    var f := cb.freq[s];
    if u >= RANS_L {
      assert Refill(u, l.words) == Lane(u, l.words);
      PushKept(cb, l, s, u);
    } else if l.words == [] {
      assert Refill(u, l.words) == Lane(u, []);
    } else {
      RefillOnce(u, l.words, f);
      PushSpilled(cb, l, s, u);
    }
  }

  lemma PushKept(cb: Codebook, l: Lane, s: nat, u: nat)
    requires ValidBook(cb) && Live(l) && s < |cb.freq| && cb.freq[s] > 0
    requires RANS_L <= u < 0x10_0000 * cb.freq[s] && Fold(u, cb.freq[s], cb.cum[s]) == l.x
    ensures Live(Lane(u, l.words)) && Push(cb, Lane(u, l.words), s) == l
  {
    hide Fold;
    var c := cb.cum[s];
    assert InRange(cb, s, c + cb.freq[s] - 1);
  }

  lemma PushSpilled(cb: Codebook, l: Lane, s: nat, u: nat)
    requires ValidBook(cb) && Live(l) && s < |cb.freq| && cb.freq[s] > 0 && l.words != []
    requires 16 * cb.freq[s] <= u < RANS_L && Fold(u, cb.freq[s], cb.cum[s]) == l.x
    ensures var next := Lane(u * WORD + l.words[0], l.words[1..]);
            Live(next) && Push(cb, next, s) == l
  {
    hide Fold;
    RefillOnce(u, l.words, cb.freq[s]);
    assert l.words == [l.words[0]] + l.words[1..];
  }

  lemma RefillOnce(u: nat, words: seq<nat>, f: nat)
    requires 0 < f && 16 * f <= u < RANS_L && words != [] && words[0] < WORD
    ensures Refill(u, words) == Lane(u * WORD + words[0], words[1..])
    ensures RANS_L <= u * WORD + words[0] < STATE_END && u * WORD + words[0] >= 0x10_0000 * f
    ensures (u * WORD + words[0]) / WORD == u && (u * WORD + words[0]) % WORD == words[0]
  {
  }

  // A spent lane stays spent.
  lemma SpentStays(cb: Codebook, l: Lane)
    requires ValidBook(cb) && Spent(l)
    ensures Spent(Pop(cb, l).1)
  {
    var slot, q := l.x % MTOTAL, l.x / MTOTAL;
    var s := cb.slot2sym[slot];
    assert InRange(cb, s, slot);
    var f, c := cb.freq[s], cb.cum[s];
    assert InRange(cb, s, c + f - 1);
    MulMono(f, MTOTAL, q);
  }

  lemma {:induction false} SpentToTheEnd(cb: Codebook, lanes: seq<Lane>, k: nat, len: nat, l: nat)
    requires ValidBook(cb) && k <= len && l < |lanes| && Spent(lanes[l])
    ensures |DecodeLanes(cb, lanes, k, len).1| == |lanes| && Spent(DecodeLanes(cb, lanes, k, len).1[l])
    decreases len - k
  {
    hide Pop;
    if k < len {
      var i := k % |lanes|;
      if i == l {
        SpentStays(cb, lanes[l]);
      }
      SpentToTheEnd(cb, lanes[i := Pop(cb, lanes[i]).1], k + 1, len, l);
    }
  }

  // Lanes that decode to the row and end at the bound are the encoder's own.
  lemma {:induction false} OnlyTheEncoders(cb: Codebook, lanes: seq<Lane>, row: seq<nat>, k: nat)
    requires ValidBook(cb) && Codable(cb, row) && k <= |row| && |lanes| > 0
    requires forall l :: 0 <= l < |lanes| ==> Live(lanes[l])
    requires DecodeLanes(cb, lanes, k, |row|) == (row[k..], StartLanes(|lanes|))
    ensures lanes == LanesAt(cb, row, |lanes|, k)
    decreases |row| - k
  {
    hide Live, Pop, Push;
    if k < |row| {
      var n := |lanes|;
      var i := k % n;
      var (s, next) := Pop(cb, lanes[i]);
      var after := lanes[i := next];
      assert row[k..][0] == row[k] && row[k..][1..] == row[k + 1..];
      var rest := DecodeLanes(cb, after, k + 1, |row|);
      assert ([s] + rest.0)[0] == s && ([s] + rest.0)[1..] == rest.0;
      PushPop(cb, lanes[i]);
      if Spent(next) {
        SpentToTheEnd(cb, after, k + 1, |row|, i);
      } else {
        OnlyTheEncoders(cb, after, row, k + 1);
        assert lanes == after[i := Push(cb, next, s)];
      }
    }
  }

  // The layout is well-formed whether or not the lengths fit, and the states are read back.
  lemma {:induction false} StartAtMost(lanes: seq<Lane>, l: nat)
    requires l <= |lanes|
    ensures StreamStart(LaneBytes(lanes), |lanes|, l) <= 6 * |lanes| + |StreamBytes(lanes, l)|
    decreases l
  {
    hide LaneBytes, WordBytes;
    if l > 0 {
      StartAtMost(lanes, l - 1);
      LengthAtMost(lanes, l - 1);
    }
  }

  lemma LengthAtMost(lanes: seq<Lane>, l: nat)
    requires l < |lanes|
    ensures StreamLen(LaneBytes(lanes), |lanes|, l) == 2 * |lanes[l].words| % WORD
  {
    hide StateBytes, LengthBytes, StreamBytes, LeBytes, LeValue;
    var n := |lanes|;
    StateSlice(lanes, l, n);
    SliceOfMiddle(StateBytes(lanes, n), LengthBytes(lanes, n), StreamBytes(lanes, n), 2 * l, 2 * l + 2);
    LeBack16(2 * |lanes[l].words| % WORD);
  }

  lemma {:induction false} WordsOfBound(b: seq<byte>)
    ensures 2 * |WordsOf(b)| <= |b| && forall i :: 0 <= i < |WordsOf(b)| ==> WordsOf(b)[i] < WORD
  {
    if |b| >= 2 {
      WordsOfBound(b[2..]);
      LeForth(b[..2]);
      Pow16();
    }
  }

  lemma ParsedIsLive(lanes: seq<Lane>, l: nat)
    requires l < |lanes| && Live(lanes[l])
    ensures WellFormed(LaneBytes(lanes), |lanes|)
    ensures var q := ParsedLane(LaneBytes(lanes), |lanes|, l);
            Live(q) && q.x == lanes[l].x && 2 * |q.words| <= 2 * |lanes[l].words| % WORD
  {
    hide LeValue, WordBytes;
    var p, n := LaneBytes(lanes), |lanes|;
    StartAtMost(lanes, n);
    StateParses(lanes, l);
    LengthAtMost(lanes, l);
    StartMono(p, n, l + 1, n);
    StartMono(p, n, l, l);
    WordsOfBound(p[StreamStart(p, n, l)..StreamStart(p, n, l + 1)]);
  }

  // A coded row decodes to the row, with every lane back at the bound and consumed, if and only
  // if the byte length of every substream fits its 16-bit field.
  lemma RoundTripExactly(cb: Codebook, row: seq<nat>, n: nat)
    requires ValidBook(cb) && Codable(cb, row) && n > 0 && row != []
    ensures var p := CodedRow(cb, row, n);
            && WellFormed(p, n)
            && (DecodeLanes(cb, ParsedLanes(p, n), 0, |row|) == (row, StartLanes(n))
                <==> LengthsFit(LanesAt(cb, row, n, 0)))
  {
    hide Live, DecodeLanes, LanesAt, ParsedLane, WellFormed;
    var lanes, p := LanesAt(cb, row, n, 0), CodedRow(cb, row, n);
    LanesLive(cb, row, n, 0);
    forall l | 0 <= l < n
      ensures WellFormed(p, n) && Live(ParsedLane(p, n, l)) && 2 * |ParsedLane(p, n, l).words| <= 2 * |lanes[l].words| % WORD
    {
      ParsedIsLive(lanes, l);
    }
    ParsedIsLive(lanes, 0);
    if LengthsFit(lanes) {
      RowRoundTrip(cb, row, n);
    }
    if DecodeLanes(cb, ParsedLanes(p, n), 0, |row|) == (row, StartLanes(n)) {
      assert row[0..] == row;
      OnlyTheEncoders(cb, ParsedLanes(p, n), row, 0);
      forall l | 0 <= l < n
        ensures 2 * |lanes[l].words| < WORD
      {
        assert ParsedLanes(p, n)[l] == ParsedLane(p, n, l);
      }
    }
  }

  // ---- a test before the call ----

  // How many positions from k on until the next one of lane l.
  function Gap(n: nat, l: nat, k: nat): (g: nat)
    requires l < n
    ensures g < n && (g == 0 <==> k % n == l)
  {
    if l >= k % n then l - k % n else l + n - k % n
  }

  lemma GapStep(n: nat, l: nat, k: nat)
    requires l < n
    ensures Gap(n, l, k + 1) == if Gap(n, l, k) == 0 then n - 1 else Gap(n, l, k) - 1
  {
    var q, r := k / n, k % n;
    assert k == n * q + r;
    if r + 1 < n {
      DivUnique(k + 1, n, q, r + 1);
    } else {
      Distribute(n, q, 1);
      DivUnique(k + 1, n, q + 1, 0);
    }
  }

  // A lane owns one position in n.
  lemma {:induction false} LaneShare(len: nat, n: nat, l: nat, k: nat)
    requires l < n && k <= len
    ensures len - k <= n * SymbolsOfLane(len, n, l, k) + Gap(n, l, k) <= len - k + n - 1
    decreases len - k
  {
    hide Gap;
    if k < len {
      LaneShare(len, n, l, k + 1);
      GapStep(n, l, k);
      Distribute(n, SymbolsOfLane(len, n, l, k + 1), 1);
      GapZero(n, l, k);
    } else {
      GapZero(n, l, k);
    }
  }

  lemma GapZero(n: nat, l: nat, k: nat)
    requires l < n
    ensures Gap(n, l, k) < n && (Gap(n, l, k) == 0 <==> k % n == l)
  {
  }

  // 17^w, which bounds what rounding can add.
  ghost function Pow17(w: nat): (p: nat)
    ensures p >= 1
  {
    if w == 0 then 1 else 17 * Pow17(w - 1)
  }

  // x + 1 grows by at most 2^12 a symbol, and shrinks by at least 2^20 / 17 a word.
  lemma PushBound(cb: Codebook, l: Lane, s: nat)
    requires ValidBook(cb) && s < |cb.freq| && cb.freq[s] > 0 && Live(l)
    ensures var p := Push(cb, l, s);
            || (|p.words| == |l.words| && p.x + 1 <= MTOTAL * (l.x + 1))
            || (|p.words| == |l.words| + 1 && 0x10_0000 * (p.x + 1) <= 17 * MTOTAL * (l.x + 1))
  {
    hide Fold;
    var f, c := cb.freq[s], cb.cum[s];
    assert InRange(cb, s, c + f - 1);
    if l.x >= 0x10_0000 * f {
      FoldAtMost(l.x / WORD, f, c);
    } else {
      FoldAtMost(l.x, f, c);
    }
  }

  lemma FoldAtMost(u: nat, f: nat, c: nat)
    requires 0 < f && f + c <= MTOTAL
    ensures Fold(u, f, c) + 1 <= MTOTAL * (u + 1)
  {
    var q := Quotient(u, f);
    MulAtLeast(q, f);
    assert f * q == q * f;
  }

  ghost predicate Within(l: Lane, m: nat) {
    (l.x + 1) * Pow2(20 * |l.words|) <= (RANS_L + 1) * Pow2(12 * m) * Pow17(|l.words|)
  }

  lemma WithinStep(cb: Codebook, l: Lane, s: nat, m: nat)
    requires ValidBook(cb) && s < |cb.freq| && cb.freq[s] > 0 && Live(l) && Within(l, m)
    ensures Within(Push(cb, l, s), m + 1)
  {
    hide Push, Pow2, Pow17;
    PushBound(cb, l, s);
    var p, w := Push(cb, l, s), |l.words|;
    var a, b := Pow2(20 * w), (RANS_L + 1) * Pow2(12 * m) * Pow17(w);
    TwelveMore(m);
    TwentyMore(w);
    if |p.words| == w {
      ScaleLe(p.x + 1, MTOTAL * (l.x + 1), a);
      ScaleOut(MTOTAL, l.x + 1, a, b);
      Rotate(RANS_L + 1, MTOTAL, Pow2(12 * m), Pow17(w));
    } else {
      ScaleLe(0x10_0000 * (p.x + 1), 17 * MTOTAL * (l.x + 1), a);
      ScaleOut(17 * MTOTAL, l.x + 1, a, b);
      Rotate(RANS_L + 1, MTOTAL, Pow2(12 * m), Pow17(w));
      Rotate4(p.x + 1, a, RANS_L + 1, MTOTAL * Pow2(12 * m), Pow17(w));
    }
  }

  lemma TwelveMore(m: nat)
    ensures Pow2(12 * (m + 1)) == MTOTAL * Pow2(12 * m)
  {
    Pow20();
    hide Pow2;
    Pow2Add(12, 12 * m);
    assert 12 + 12 * m == 12 * (m + 1);
  }

  lemma TwentyMore(w: nat)
    ensures Pow2(20 * (w + 1)) == 0x10_0000 * Pow2(20 * w) && Pow17(w + 1) == 17 * Pow17(w)
  {
    Pow20();
    hide Pow2;
    Pow2Add(20, 20 * w);
    assert 20 + 20 * w == 20 * (w + 1);
  }

  lemma Pow20()
    ensures Pow2(20) == 0x10_0000 && Pow2(12) == MTOTAL
  {
    assert Pow2(4) == 16 && Pow2(8) == 256;
    Pow2Add(8, 4);
    Pow2Add(16, 4);
    Pow16();
  }

  lemma ScaleLe(x: nat, y: nat, a: nat)
    requires x <= y
    ensures x * a <= y * a
  {
    MulMono(x, y, a);
  }

  lemma ScaleOut(c: nat, x: nat, a: nat, b: nat)
    requires x * a <= b
    ensures (c * x) * a <= c * b
  {
    MulMono(x * a, b, c);
    assert (c * x) * a == (x * a) * c;
  }

  lemma Rotate(r: nat, c: nat, p: nat, q: nat)
    ensures c * (r * p * q) == r * (c * p) * q
  {
    assert r * (c * p) == c * (r * p);
  }

  lemma Rotate4(x: nat, a: nat, r: nat, p: nat, q: nat)
    requires (0x10_0000 * x) * a <= 17 * (r * p * q)
    ensures x * (0x10_0000 * a) <= r * p * (17 * q)
  {
    assert (0x10_0000 * x) * a == x * (0x10_0000 * a);
    assert 17 * (r * p * q) == r * p * (17 * q);
  }

  lemma {:induction false} LaneWithin(cb: Codebook, row: seq<nat>, n: nat, l: nat, k: nat)
    requires ValidBook(cb) && Codable(cb, row) && l < n && k <= |row|
    ensures Within(LanesAt(cb, row, n, k)[l], SymbolsOfLane(|row|, n, l, k))
    decreases |row| - k
  {
    hide Within, Push;
    if k == |row| {
      StartWithin();
    } else {
      LaneWithin(cb, row, n, l, k + 1);
      if k % n == l {
        LanesLive(cb, row, n, k + 1);
        WithinStep(cb, LanesAt(cb, row, n, k + 1)[l], row[k], SymbolsOfLane(|row|, n, l, k + 1));
      }
    }
  }

  lemma StartWithin()
    ensures Within(Lane(RANS_L, []), 0)
  {
  }

  lemma {:induction false} Pow17Bound(k: nat)
    ensures Pow17(11 * k) <= Pow2(45 * k)
  {
    if k > 0 {
      hide Pow2, Pow17;
      Pow17Bound(k - 1);
      Pow17Eleven(11 * (k - 1));
      Pow2Add(45, 45 * (k - 1));
      Pow45();
      assert 45 + 45 * (k - 1) == 45 * k && 11 * (k - 1) + 11 == 11 * k;
    }
  }

  lemma Pow45()
    ensures Pow2(45) == 0x2000_0000_0000
  {
    Pow20();
    Pow32();
    Pow2Add(32, 12);
    Pow2Next(44);
  }

  lemma Pow17Four(w: nat)
    ensures Pow17(w + 4) == 83521 * Pow17(w) && Pow17(w + 3) == 4913 * Pow17(w)
  {
    assert Pow17(w + 1) == 17 * Pow17(w);
    assert Pow17(w + 2) == 17 * Pow17(w + 1);
    assert Pow17(w + 3) == 17 * Pow17(w + 2);
  }

  lemma Pow17Eleven(w: nat)
    ensures Pow17(w + 11) <= 0x2000_0000_0000 * Pow17(w)
  {
    hide Pow17;
    Pow17Four(w);
    Pow17Four(w + 4);
    Pow17Four(w + 8);
  }

  lemma {:induction false} Pow17Mono(v: nat, w: nat)
    requires v <= w
    ensures Pow17(v) <= Pow17(w)
    decreases w
  {
    if v < w {
      Pow17Mono(v, w - 1);
    }
  }

  // 32768 words take more than 43439 symbols.
  lemma FewWords(l: Lane, m: nat)
    requires Live(l) && Within(l, m) && m <= 43439
    ensures |l.words| < 32768
  {
    var w := |l.words|;
    if w >= 32768 {
      var k := w / 11 + 1;
      hide Pow2, Pow17;
      assert w < 11 * k && 17 + 12 * m + 45 * k <= 16 + 20 * w;
      Pow17Mono(w, 11 * k);
      Pow17Bound(k);
      TooHigh(l.x + 1, Pow2(20 * w), Pow2(12 * m), Pow17(w), Pow2(45 * k));
      Pow2Add(12 * m, 45 * k);
      SeventeenMore(12 * m + 45 * k);
      SixteenMore(20 * w);
      Pow2Mono(17 + 12 * m + 45 * k, 16 + 20 * w);
    }
  }

  lemma TooHigh(x: nat, a: nat, b: nat, c: nat, d: nat)
    requires x * a <= (RANS_L + 1) * b * c && x > RANS_L && c <= d && a > 0 && b > 0
    ensures RANS_L * a < 2 * RANS_L * (b * d)
  {
    MulMono(RANS_L + 1, x, a);
    MulMono(c, d, (RANS_L + 1) * b);
    assert (RANS_L + 1) * b * d == (RANS_L + 1) * (b * d);
  }

  lemma SixteenMore(k: nat)
    ensures Pow2(16 + k) == RANS_L * Pow2(k)
  {
    Pow2Add(16, k);
    Pow16();
  }

  lemma SeventeenMore(k: nat)
    ensures Pow2(17 + k) == 2 * RANS_L * Pow2(k)
  {
    SixteenMore(k);
  }

  // The lengths fit for every row of at most 43439 symbols a lane.
  lemma LengthsFitShort(cb: Codebook, row: seq<nat>, n: nat)
    requires ValidBook(cb) && Codable(cb, row) && n > 0 && |row| <= 43439 * n
    ensures LengthsFit(LanesAt(cb, row, n, 0))
  {
    LanesLive(cb, row, n, 0);
    forall l: nat | l < n
      ensures 2 * |LanesAt(cb, row, n, 0)[l].words| < WORD
    {
      LaneShare(|row|, n, l, 0);
      CancelLt(n, SymbolsOfLane(|row|, n, l, 0), 43440);
      LaneWithin(cb, row, n, l, 0);
      FewWords(LanesAt(cb, row, n, 0)[l], SymbolsOfLane(|row|, n, l, 0));
    }
  }

  // ---- rows of one symbol ----

  // A lane after m times the symbol s.
  ghost function Repeated(cb: Codebook, s: nat, m: nat): (l: Lane)
    requires ValidBook(cb) && s < |cb.freq| && cb.freq[s] > 0
    ensures Live(l)
  {
    if m == 0 then Lane(RANS_L, []) else
      PopPush(cb, Repeated(cb, s, m - 1), s);
      Push(cb, Repeated(cb, s, m - 1), s)
  }

  lemma {:induction false} RepeatedAt(cb: Codebook, row: seq<nat>, n: nat, s: nat, l: nat, k: nat)
    requires ValidBook(cb) && Codable(cb, row) && l < n && k <= |row| && s < |cb.freq| && cb.freq[s] > 0
    requires forall i :: k <= i < |row| ==> row[i] == s
    ensures LanesAt(cb, row, n, k)[l] == Repeated(cb, s, SymbolsOfLane(|row|, n, l, k))
    decreases |row| - k
  {
    hide Push;
    if k < |row| {
      RepeatedAt(cb, row, n, s, l, k + 1);
    }
  }

  // ---- rows that do not survive ----

  // s owns only the last slot.
  ghost predicate LastSlot(cb: Codebook, s: nat) {
    s < |cb.freq| && s < |cb.cum| && cb.freq[s] == 1 && cb.cum[s] == MTOTAL - 1
  }

  // Every symbol of the row is s, which owns only the last slot.
  ghost predicate Rare(cb: Codebook, row: seq<nat>, s: nat) {
    LastSlot(cb, s) && forall i :: 0 <= i < |row| ==> row[i] == s
  }

  // The state after m such symbols, which comes back to 17 * 2^12 - 1 every fourth time.
  function RareState(m: nat): nat {
    if m == 0 then RANS_L
    else if m < 4 then Pow2(32 - 4 * m) + MTOTAL - 1
    else if m % 4 == 0 then 17 * Pow2(12) - 1
    else 17 * Pow2(28 - 4 * (m % 4)) - 1
  }

  // Three words for every four symbols.
  function RareWords(m: nat): nat {
    3 * (m / 4) + if m % 4 == 0 then 0 else m % 4 - 1
  }

  lemma {:induction false} RareRepeated(cb: Codebook, s: nat, m: nat)
    requires ValidBook(cb) && LastSlot(cb, s)
    ensures Repeated(cb, s, m).x == RareState(m) && |Repeated(cb, s, m).words| == RareWords(m)
  {
    hide Pow2, Fold;
    if m > 0 {
      RareRepeated(cb, s, m - 1);
      RarePush(cb, Repeated(cb, s, m - 1), s);
      RareStep(m - 1);
    }
  }

  lemma RarePush(cb: Codebook, l: Lane, s: nat)
    requires ValidBook(cb) && LastSlot(cb, s)
    ensures var p := Push(cb, l, s);
            && p.x == MTOTAL * (if l.x >= 0x10_0000 then l.x / WORD else l.x) + MTOTAL - 1
            && |p.words| == |l.words| + if l.x >= 0x10_0000 then 1 else 0
  {
    hide Fold;
    Quotient1(l.x);
    Quotient1(l.x / WORD);
  }

  lemma RareStep(m: nat)
    ensures var x := RareState(m);
            && RareState(m + 1) == MTOTAL * (if x >= 0x10_0000 then x / WORD else x) + MTOTAL - 1
            && RareWords(m + 1) == RareWords(m) + if x >= 0x10_0000 then 1 else 0
  {
    NextOfFour(m);
    RareStates(m);
    RareStates(m + 1);
    hide RareState;
  }

  lemma NextOfFour(m: nat)
    ensures (m + 1) % 4 == if m % 4 == 3 then 0 else m % 4 + 1
    ensures (m + 1) / 4 == if m % 4 == 3 then m / 4 + 1 else m / 4
  {
  }

  lemma RareStates(m: nat)
    ensures m == 0 ==> RareState(m) == RANS_L
    ensures m == 1 ==> RareState(m) == 0x1000_0FFF
    ensures m == 2 ==> RareState(m) == 0x100_0FFF
    ensures m == 3 ==> RareState(m) == 0x10_0FFF
    ensures m >= 4 && m % 4 == 0 ==> RareState(m) == 0x1_0FFF
    ensures m >= 4 && m % 4 == 1 ==> RareState(m) == 0x10FF_FFFF
    ensures m >= 4 && m % 4 == 2 ==> RareState(m) == 0x110_0000 - 1
    ensures m >= 4 && m % 4 == 3 ==> RareState(m) == 0x11_0000 - 1
  {
    Pow20();
    Pow16();
    Pow2Add(12, 12);
    Pow2Add(16, 12);
    hide Pow2;
  }

  lemma Quotient1(x: nat)
    ensures Quotient(x, 1) == x && Fold(x, 1, MTOTAL - 1) + 1 == MTOTAL * (x + 1)
  {
  }

  // Encoding such a symbol multiplies x + 1, counted in words, by at least 2^12.
  ghost function Potential(l: Lane): nat {
    (l.x + 1) * Pow2(16 * |l.words|)
  }

  lemma PushGrows(cb: Codebook, l: Lane, s: nat)
    requires ValidBook(cb) && LastSlot(cb, s) && Live(l)
    ensures Potential(Push(cb, l, s)) >= MTOTAL * Potential(l)
  {
    var w := Pow2(16 * |l.words|);
    var p := Push(cb, l, s);
    if l.x >= 0x10_0000 {
      var u := l.x / WORD;
      Quotient1(u);
      Pow2Add(16, 16 * |l.words|);
      Pow16();
      assert 16 * |p.words| == 16 + 16 * |l.words|;
      hide Pow2;
      assert Potential(p) == (MTOTAL * (u + 1)) * (WORD * w);
      Regroup(u + 1, w);
      MulMono(l.x + 1, WORD * (u + 1), w);
    } else {
      Quotient1(l.x);
      assert Potential(p) == (MTOTAL * (l.x + 1)) * w == MTOTAL * ((l.x + 1) * w);
    }
  }

  lemma Regroup(u: nat, w: nat)
    ensures (MTOTAL * u) * (WORD * w) == MTOTAL * ((WORD * u) * w)
  {
  }

  lemma GrowsOnce(cb: Codebook, l: Lane, s: nat, m: nat)
    requires ValidBook(cb) && LastSlot(cb, s) && Live(l) && Potential(l) >= Pow2(16 + 12 * m)
    ensures Potential(Push(cb, l, s)) >= Pow2(16 + 12 * (m + 1))
  {
    hide Potential, Push;
    PushGrows(cb, l, s);
    Pow2Add(12, 16 + 12 * m);
    assert Pow2(12) == MTOTAL;
    MulMono(Pow2(16 + 12 * m), Potential(l), MTOTAL);
    assert 12 + (16 + 12 * m) == 16 + 12 * (m + 1);
  }

  lemma LivePotential(l: Lane)
    requires Live(l)
    ensures Pow2(16) <= Potential(l) <= Pow2(32 + 16 * |l.words|)
  {
    Pow16();
    Pow32();
    Pow2Add(32, 16 * |l.words|);
    hide Pow2;
    MulMono(l.x + 1, STATE_END, Pow2(16 * |l.words|));
    MulAtLeast(l.x + 1, Pow2(16 * |l.words|));
  }

  // A spent lane gives such a symbol at most once.
  lemma SpentRare(cb: Codebook, l: Lane, s: nat)
    requires ValidBook(cb) && LastSlot(cb, s) && Spent(l) && Pop(cb, l).0 == s
    ensures l.x >= MTOTAL - 1 && Spent(Pop(cb, l).1) && Pop(cb, l).1.x < 16
  {
    assert InRange(cb, s, l.x % MTOTAL);
  }

  // How many such symbols a lane may have left: what it holds, and two at the end.
  ghost predicate Enough(l: Lane, m: nat) {
    || m == 0
    || (Spent(l) && m == 1 && l.x >= MTOTAL - 1)
    || (Live(l) && (m >= 2 ==> Potential(l) >= Pow2(16 + 12 * (m - 2))))
  }

  // Lanes that decode to such a row hold enough for it.
  lemma {:induction false} RareNeeds(cb: Codebook, lanes: seq<Lane>, row: seq<nat>, s: nat, l: nat, k: nat)
    requires ValidBook(cb) && Rare(cb, row, s) && l < |lanes| && k <= |row|
    requires Live(lanes[l]) || Spent(lanes[l])
    requires DecodeLanes(cb, lanes, k, |row|).0 == row[k..]
    ensures Enough(lanes[l], SymbolsOfLane(|row|, |lanes|, l, k))
    decreases |row| - k
  {
    hide Pop, Push, Live, Spent, Enough;
    if k == |row| {
      NothingNeeded(lanes[l]);
    } else {
      var i := k % |lanes|;
      var (s', next) := Pop(cb, lanes[i]);
      var after := lanes[i := next];
      assert row[k..][0] == row[k] && row[k..][1..] == row[k + 1..];
      var rest := DecodeLanes(cb, after, k + 1, |row|);
      assert ([s'] + rest.0)[0] == s' && ([s'] + rest.0)[1..] == rest.0;
      if i == l {
        RareStepNeeds(cb, lanes[l], s, SymbolsOfLane(|row|, |lanes|, l, k + 1));
      }
      RareNeeds(cb, after, row, s, l, k + 1);
      if i == l {
        RareStepEnough(cb, lanes[l], s, SymbolsOfLane(|row|, |lanes|, l, k + 1));
      }
    }
  }

  lemma NothingNeeded(l: Lane)
    ensures Enough(l, 0)
  {
  }

  lemma RareStepNeeds(cb: Codebook, l: Lane, s: nat, m: nat)
    requires ValidBook(cb) && LastSlot(cb, s) && (Live(l) || Spent(l)) && Pop(cb, l).0 == s
    ensures Live(Pop(cb, l).1) || Spent(Pop(cb, l).1)
  {
    hide Pop, Push;
    if Live(l) {
      PushPop(cb, l);
    } else {
      SpentStays(cb, l);
    }
  }

  lemma RareStepEnough(cb: Codebook, l: Lane, s: nat, m: nat)
    requires ValidBook(cb) && LastSlot(cb, s) && (Live(l) || Spent(l)) && Pop(cb, l).0 == s
    requires Enough(Pop(cb, l).1, m)
    ensures Enough(l, m + 1)
  {
    hide Pop, Push, Potential, Pow2;
    if Live(l) {
      PushPop(cb, l);
      LivePotential(l);
      var next := Pop(cb, l).1;
      if Live(next) && m >= 1 {
        LivePotential(next);
        GrowsOnce(cb, next, s, if m >= 2 then m - 2 else 0);
      }
    } else {
      SpentRare(cb, l, s);
    }
  }

  // No lane the decoder can read holds enough for 43691 such symbols: the 16-bit length has wrapped.
  lemma NotEnough(q: Lane, m: nat)
    requires Live(q) && m >= 43691 && 2 * |q.words| <= 2 * RareWords(m) % WORD
    ensures !Enough(q, m)
  {
    hide Potential, Pow2;
    var w := |q.words|;
    LivePotential(q);
    if m <= 43692 {
      assert w <= 1;
    } else {
      assert w <= 32767;
    }
    Pow2Mono(33 + 16 * w, 16 + 12 * (m - 2));
    Pow2Next(32 + 16 * w);
  }

  lemma Pow2Next(k: nat)
    ensures Pow2(k + 1) == 2 * Pow2(k) > Pow2(k)
  {
  }

  // The words of such a row fit up to 43690 symbols a lane.
  lemma RareFits(cb: Codebook, row: seq<nat>, n: nat, s: nat)
    requires ValidBook(cb) && Rare(cb, row, s) && n > 0
    ensures Codable(cb, row) && (LengthsFit(LanesAt(cb, row, n, 0)) <==> |row| <= 43690 * n)
    ensures |LanesAt(cb, row, n, 0)[0].words| == RareWords(SymbolsOfLane(|row|, n, 0, 0))
    ensures |row| > 43690 * n ==> SymbolsOfLane(|row|, n, 0, 0) >= 43691
  {
    hide LanesAt, ValidBook;
    assert Codable(cb, row);
    forall l: nat | l < n
      ensures |LanesAt(cb, row, n, 0)[l].words| == RareWords(SymbolsOfLane(|row|, n, l, 0))
      ensures |row| <= 43690 * n ==> SymbolsOfLane(|row|, n, l, 0) <= 43690
    {
      RepeatedAt(cb, row, n, s, l, 0);
      RareRepeated(cb, s, SymbolsOfLane(|row|, n, l, 0));
      LaneShare(|row|, n, l, 0);
      if |row| <= 43690 * n {
        CancelLt(n, SymbolsOfLane(|row|, n, l, 0), 43691);
      }
    }
    if |row| > 43690 * n {
      LaneShare(|row|, n, 0, 0);
      CancelLt(n, 43690, SymbolsOfLane(|row|, n, 0, 0));
    }
  }

  // Such a row comes back, symbol by symbol, if and only if it has at most 43690 symbols a lane.
  lemma RareRowsExactly(cb: Codebook, row: seq<nat>, n: nat, s: nat)
    requires ValidBook(cb) && Rare(cb, row, s) && n > 0 && row != []
    ensures Codable(cb, row) && (LengthsFit(LanesAt(cb, row, n, 0)) <==> |row| <= 43690 * n)
    ensures WellFormed(CodedRow(cb, row, n), n)
    ensures DecodeLanes(cb, ParsedLanes(CodedRow(cb, row, n), n), 0, |row|).0 == row <==> |row| <= 43690 * n
  {
    hide DecodeLanes, WellFormed, LanesAt, ParsedLane, LengthsFit, Enough, LaneBytes, Live, RareWords;
    RareFits(cb, row, n, s);
    RoundTripExactly(cb, row, n);
    var p, lanes := CodedRow(cb, row, n), LanesAt(cb, row, n, 0);
    if |row| > 43690 * n && DecodeLanes(cb, ParsedLanes(p, n), 0, |row|).0 == row {
      LanesLive(cb, row, n, 0);
      ParsedIsLive(lanes, 0);
      assert row[0..] == row;
      RareNeeds(cb, ParsedLanes(p, n), row, s, 0, 0);
      NotEnough(ParsedLanes(p, n)[0], SymbolsOfLane(|row|, n, 0, 0));
    }
  }

  // A book and a row that fail: frequencies 4095 and 1, four lanes, and 174761 times the symbol 1.
  function SkewedBook(): Codebook {
    Codebook([MTOTAL - 1, 1], [0, MTOTAL - 1, MTOTAL], seq(MTOTAL, k => if k == MTOTAL - 1 then 1 else 0))
  }

  lemma SkewedIsValid()
    ensures ValidBook(SkewedBook())
  {
  }

  lemma LongRowFails()
    ensures var cb, row := SkewedBook(), seq(174761, _ => 1);
            && ValidBook(cb) && Codable(cb, row) && WellFormed(CodedRow(cb, row, 4), 4)
            && DecodeLanes(cb, ParsedLanes(CodedRow(cb, row, 4), 4), 0, |row|).0 != row
  {
    hide DecodeLanes, CodedRow, WellFormed, LanesAt, ValidBook;
    SkewedIsValid();
    var row: seq<nat> := seq(174761, _ => 1);
    RareRowsExactly(SkewedBook(), row, 4, 1);
  }

  // ---- a row that comes back although its lengths have wrapped ----

  // Frequencies 2048, 1 and 2047.
  function EchoBook(): Codebook {
    Codebook([2048, 1, 2047], [0, 2048, 2049, MTOTAL], seq(MTOTAL, k => if k < 2048 then 0 else if k == 2048 then 1 else 2))
  }

  lemma EchoIsValid()
    ensures ValidBook(EchoBook())
  {
  }

  const ECHO_ZEROS: nat := 16 * 32767 + 4

  // The symbol 1 in each of the four lanes, and 16 * 32767 + 4 times the symbol 0 in each behind it.
  function EchoRow(): (row: seq<nat>)
    ensures |row| == 4 + 4 * ECHO_ZEROS && forall i :: 0 <= i < |row| ==> row[i] == if i < 4 then 1 else 0
  {
    seq(4 + 4 * ECHO_ZEROS, i => if i < 4 then 1 else 0)
  }

  lemma EchoZero(l: Lane)
    requires ValidBook(EchoBook()) && l.x % 2048 == 0 && (l.x >= 0x8000_0000 ==> l.x == 0x8000_0000)
    ensures var p := Push(EchoBook(), l, 0);
            && p.x == (if l.x == 0x8000_0000 then RANS_L else 2 * l.x)
            && |p.words| == |l.words| + if l.x == 0x8000_0000 then 1 else 0
  {
  }

  // The symbol 0 doubles the state and emits a word every sixteenth time.
  lemma {:induction false} EchoZeros(m: nat)
    requires ValidBook(EchoBook())
    ensures Repeated(EchoBook(), 0, m).x == Pow2(16 + m % 16) && |Repeated(EchoBook(), 0, m).words| == m / 16
  {
    hide Pow2, EchoBook;
    Pow16();
    EchoSymbols();
    if m > 0 {
      EchoZeros(m - 1);
      Doubling(m - 1);
      EchoZero(Repeated(EchoBook(), 0, m - 1));
    }
  }

  lemma Doubling(m: nat)
    ensures var x := Pow2(16 + m % 16);
            && (x >= 0x8000_0000 <==> m % 16 == 15) && (m % 16 == 15 ==> x == 0x8000_0000)
            && x % 2048 == 0 && Pow2(16 + (m + 1) % 16) == (if m % 16 == 15 then RANS_L else 2 * x)
            && (m + 1) / 16 == m / 16 + if m % 16 == 15 then 1 else 0
  {
    hide Pow2;
    var r := m % 16;
    Pow16();
    Pow20();
    Pow32();
    Pow2Next(11);
    Pow2Next(31);
    Pow2Next(30);
    Pow2Next(16 + r);
    Pow2Add(11, 5 + r);
    Pow2Mono(16 + r, if r == 15 then 31 else 30);
    NextOfSixteen(m);
  }

  lemma NextOfSixteen(m: nat)
    ensures (m + 1) % 16 == if m % 16 == 15 then 0 else m % 16 + 1
    ensures (m + 1) / 16 == m / 16 + if m % 16 == 15 then 1 else 0
  {
  }

  // With one word more than a length field can count, which is read as none.
  lemma EchoLane()
    requires ValidBook(EchoBook())
    ensures var p := Push(EchoBook(), Repeated(EchoBook(), 0, ECHO_ZEROS), 1);
            p.x == 67584 && |p.words| == 32768
  {
    hide Repeated, Pow2;
    EchoZeros(ECHO_ZEROS);
    Pow20();
    EchoPush(Repeated(EchoBook(), 0, ECHO_ZEROS));
  }

  lemma EchoPush(z: Lane)
    requires ValidBook(EchoBook()) && z.x == 0x10_0000
    ensures Push(EchoBook(), z, 1).x == 67584 && |Push(EchoBook(), z, 1).words| == |z.words| + 1
  {
    Quotient1(16);
  }

  lemma EchoShare(l: nat)
    requires l < 4
    ensures SymbolsOfLane(|EchoRow()|, 4, l, 4) == ECHO_ZEROS
  {
    hide EchoRow;
    LaneShare(|EchoRow()|, 4, l, 4);
  }

  lemma LanesStep(cb: Codebook, row: seq<nat>, n: nat, k: nat)
    requires ValidBook(cb) && Codable(cb, row) && n > 0 && k < |row|
    ensures Live(LanesAt(cb, row, n, k + 1)[k % n])
    ensures LanesAt(cb, row, n, k)
         == LanesAt(cb, row, n, k + 1)[k % n := Push(cb, LanesAt(cb, row, n, k + 1)[k % n], row[k])]
  {
    LanesLive(cb, row, n, k + 1);
  }

  lemma {:induction false} EchoLanes(l: nat, k: nat)
    requires ValidBook(EchoBook()) && Codable(EchoBook(), EchoRow()) && l < 4 && k <= 4
    ensures LanesAt(EchoBook(), EchoRow(), 4, k)[l]
         == (var z := Repeated(EchoBook(), 0, ECHO_ZEROS); if l >= k then Push(EchoBook(), z, 1) else z)
    decreases 4 - k
  {
    hide Push, EchoRow, EchoBook, Repeated, ValidBook, LanesAt;
    var cb, row := EchoBook(), EchoRow();
    if k == 4 {
      EchoSymbols();
      EchoShare(l);
      RepeatedAt(cb, row, 4, 0, l, 4);
    } else {
      EchoSymbols();
      EchoLanes(l, k + 1);
      EchoLanes(k, k + 1);
      LanesStep(cb, row, 4, k);
    }
  }

  lemma EchoSymbols()
    ensures |EchoBook().freq| == 3 && EchoBook().freq[0] == 2048 && EchoBook().freq[1] == 1
    ensures Codable(EchoBook(), EchoRow())
  {
  }

  // What is left of a lane after its first symbol reads as 0 for ever.
  lemma EchoPops()
    requires ValidBook(EchoBook())
    ensures Pop(EchoBook(), Lane(67584, [])) == (1, Lane(16, []))
    ensures Pop(EchoBook(), Lane(16, [])) == (0, Lane(16, []))
  {
  }

  lemma {:induction false} EchoDecodes(lanes: seq<Lane>, k: nat)
    requires ValidBook(EchoBook()) && |lanes| == 4 && k <= |EchoRow()|
    requires forall l :: 0 <= l < 4 ==> lanes[l] == Lane(if l >= k then 67584 else 16, [])
    ensures DecodeLanes(EchoBook(), lanes, k, |EchoRow()|).0 == EchoRow()[k..]
    decreases |EchoRow()| - k
  {
    hide Pop, EchoBook, EchoRow;
    var row := EchoRow();
    if k < |row| {
      EchoPops();
      var i := k % 4;
      assert k < 4 ==> i == k;
      EchoDecodes(lanes[i := Lane(16, [])], k + 1);
      assert row[k..] == [row[k]] + row[k + 1..];
    }
  }

  // Wrapped lengths lose words, and still every symbol may come back.
  lemma EchoSurvives()
    ensures var cb, row := EchoBook(), EchoRow();
            && ValidBook(cb) && Codable(cb, row) && !LengthsFit(LanesAt(cb, row, 4, 0))
            && WellFormed(CodedRow(cb, row, 4), 4)
            && DecodeLanes(cb, ParsedLanes(CodedRow(cb, row, 4), 4), 0, |row|).0 == row
  {
    hide DecodeLanes, LanesAt, EchoBook, EchoRow, ParsedLane, LaneBytes, WellFormed, Repeated, Push, Live, ValidBook;
    EchoIsValid();
    EchoSymbols();
    EchoLane();
    var cb, row := EchoBook(), EchoRow();
    var lanes, p := LanesAt(cb, row, 4, 0), CodedRow(cb, row, 4);
    LanesLive(cb, row, 4, 0);
    forall l: nat | l < 4
      ensures WellFormed(p, 4) && lanes[l].x == 67584 && |lanes[l].words| == 32768
      ensures ParsedLane(p, 4, l) == Lane(67584, [])
    {
      EchoLanes(l, 0);
      ParsedIsLive(lanes, l);
    }
    ParsedIsLive(lanes, 0);
    assert 2 * |lanes[0].words| == WORD;
    EchoDecodes(ParsedLanes(p, 4), 0);
    assert row[0..] == row;
  }

  // ---- the encoder and the decoder ----

  // Encodes one symbol into a lane; buf holds the lane's words in emission order.
  method EncodeOne(cb: Codebook, x0: nat, buf0: seq<nat>, s: nat) returns (x: nat, buf: seq<nat>)
    requires ValidBook(cb) && s < |cb.freq| && cb.freq[s] > 0 && Live(Lane(x0, Reverse(buf0)))
    ensures Lane(x, Reverse(buf)) == Push(cb, Lane(x0, Reverse(buf0)), s)
  {
    var f := cb.freq[s];
    var xmax := 0x10_0000 * f;
    x, buf := x0, buf0;
    assert InRange(cb, s, cb.cum[s] + f - 1);
    SpillOnce(x0, f);
    ReverseSnoc<nat>(buf0, x0 % WORD);
    while x >= xmax
      invariant (x == x0 && buf == buf0) || (x0 >= xmax && x == x0 / WORD && buf == buf0 + [x0 % WORD])
      decreases x
    {
      buf := buf + [x % WORD];
      x := x / WORD;
    }
    var y := x;
    x := Quotient(y, f) * MTOTAL + (y - f * Quotient(y, f)) + cb.cum[s];
    assert x == Fold(y, f, cb.cum[s]);
    assert x0 >= xmax <==> y != x0;
  }

  // The lane states and word buffers after encoding a row backwards.
  method EncodeLanes(cb: Codebook, sym: seq<nat>, n: nat) returns (x: seq<nat>, buf: seq<seq<nat>>)
    requires ValidBook(cb) && Codable(cb, sym) && n > 0
    ensures |x| == n && |buf| == n
    ensures forall l :: 0 <= l < n ==> Lane(x[l], Reverse(buf[l])) == LanesAt(cb, sym, n, 0)[l]
  {
    x, buf := seq(n, _ => RANS_L), seq(n, _ => []);
    var i := |sym|;
    while i > 0
      invariant 0 <= i <= |sym| && |x| == n && |buf| == n
      invariant forall l :: 0 <= l < n ==> Lane(x[l], Reverse(buf[l])) == LanesAt(cb, sym, n, i)[l]
    {
      LanesLive(cb, sym, n, i);
      i := i - 1;
      var l := i % n;
      var x', buf' := EncodeOne(cb, x[l], buf[l], sym[i]);
      x, buf := x[l := x'], buf[l := buf'];
    }
  }

  // A lane's words, read from its buffer from the end, as bytes.
  method StreamOf(buf: seq<nat>) returns (b: seq<byte>)
    ensures b == WordBytes(Reverse(buf))
  {
    b := [];
    assert buf[..|buf|] == buf;
    for k := 0 to |buf|
      invariant WordBytes(Reverse(buf)) == b + WordBytes(Reverse(buf[..|buf| - k]))
    {
      var w := buf[|buf| - 1 - k];
      ReverseSnoc<nat>(buf[..|buf| - 1 - k], w);
      assert buf[..|buf| - k] == buf[..|buf| - 1 - k] + [w];
      assert ([w] + Reverse(buf[..|buf| - 1 - k]))[1..] == Reverse(buf[..|buf| - 1 - k]);
      assert b + (LeBytes(w, 2) + WordBytes(Reverse(buf[..|buf| - 1 - k])))
          == (b + LeBytes(w, 2)) + WordBytes(Reverse(buf[..|buf| - 1 - k]));
      b := b + LeBytes(w, 2);
    }
  }

  // rans_encode_row: writes the coded row at out[off..]; -1 if it needs more than cap bytes.
  method EncodeRow(cb: Codebook, sym: seq<nat>, n: nat, out: array<byte>, off: nat, cap: nat) returns (used: int)
    requires ValidBook(cb) && Codable(cb, sym) && n > 0 && off + cap <= out.Length
    modifies out
    ensures var c := CodedRow(cb, sym, n);
            && used == (if |c| <= cap then |c| else -1)
            && (|c| <= cap ==> out[off..off + |c|] == c)
    ensures forall i :: 0 <= i < out.Length && !(off <= i < off + cap) ==> out[i] == old(out[i])
  {
    if |sym| <= 0 {
      return 0;
    }
    var x, buf := EncodeLanes(cb, sym, n);
    ghost var lanes := LanesAt(cb, sym, n, 0);
    var total := 6 * n;
    for l := 0 to n
      invariant total == 6 * n + |StreamBytes(lanes, l)|
    {
      assert |lanes[l].words| == |buf[l]|;
      total := total + 2 * |buf[l]|;
    }
    if total > cap {
      return -1;
    }
    var row := WriteRow(x, buf, lanes);
    Store(out, off, row);
    used := |row|;
  }

  // The row's bytes in layout order.
  method WriteRow(x: seq<nat>, buf: seq<seq<nat>>, ghost lanes: seq<Lane>) returns (b: seq<byte>)
    requires |x| == |buf| == |lanes|
    requires forall l :: 0 <= l < |x| ==> Lane(x[l], Reverse(buf[l])) == lanes[l]
    ensures b == LaneBytes(lanes)
  {
    hide Reverse, LeBytes, WordBytes;
    b := [];
    for l := 0 to |x|
      invariant b == StateBytes(lanes, l)
    {
      assert lanes[l].x == x[l];
      b := b + LeBytes(x[l], 4);
    }
    b := WriteLengths(b, buf, lanes);
    b := WriteStreams(b, buf, lanes);
  }

  method WriteLengths(states: seq<byte>, buf: seq<seq<nat>>, ghost lanes: seq<Lane>) returns (b: seq<byte>)
    requires |buf| == |lanes| && forall l :: 0 <= l < |buf| ==> |lanes[l].words| == |buf[l]|
    ensures b == states + LengthBytes(lanes, |lanes|)
  {
    hide LeBytes;
    b := states;
    for l := 0 to |buf|
      invariant b == states + LengthBytes(lanes, l)
    {
      assert |lanes[l].words| == |buf[l]|;
      b := b + LeBytes(2 * |buf[l]| % WORD, 2);
    }
  }

  method WriteStreams(head: seq<byte>, buf: seq<seq<nat>>, ghost lanes: seq<Lane>) returns (b: seq<byte>)
    requires |buf| == |lanes| && forall l :: 0 <= l < |buf| ==> lanes[l].words == Reverse(buf[l])
    ensures b == head + StreamBytes(lanes, |lanes|)
  {
    hide Reverse, WordBytes;
    b := head;
    for l := 0 to |buf|
      invariant b == head + StreamBytes(lanes, l)
    {
      var st := StreamOf(buf[l]);
      assert lanes[l].words == Reverse(buf[l]);
      assert head + (StreamBytes(lanes, l) + st) == (head + StreamBytes(lanes, l)) + st;
      b := b + st;
    }
  }

  // The decoding state of one lane: its state and how far into its substream it has read.
  ghost function LaneView(p: seq<byte>, x: nat, pos: nat, end: nat): Lane
    requires pos <= end <= |p|
  {
    Lane(x, WordsOf(p[pos..end]))
  }

  lemma FirstPair(p: seq<byte>, i: nat, j: nat)
    requires i + 2 <= j <= |p|
    ensures p[i..j][..2] == p[i..i + 2] && p[i..j][2..] == p[i + 2..j]
  {
  }

  // Reads words while the state is too small and the substream has one left.
  method RefillLane(p: seq<byte>, x0: nat, pos0: nat, end: nat) returns (x: nat, pos: nat)
    requires pos0 <= end <= |p|
    ensures pos0 <= pos <= end && LaneView(p, x, pos, end) == Refill(x0, WordsOf(p[pos0..end]))
  {
    x, pos := x0, pos0;
    while x < RANS_L && pos + 2 <= end
      invariant pos0 <= pos <= end
      invariant Refill(x, WordsOf(p[pos..end])) == Refill(x0, WordsOf(p[pos0..end]))
    {
      FirstPair(p, pos, end);
      var w := LeValue(p[pos..pos + 2]);
      pos := pos + 2;
      x := x * WORD + w;
    }
  }

  // rans_decode_row: decodes len symbols of a well-formed row into symOut.
  method DecodeRow(cb: Codebook, p: seq<byte>, n: nat, len: nat, symOut: array<nat>)
    returns (ghost last: seq<Lane>)
    requires ValidBook(cb) && n > 0 && len <= symOut.Length && (len > 0 ==> WellFormed(p, n))
    modifies symOut
    ensures len > 0 ==>
              (symOut[..len], last) == DecodeLanes(cb, ParsedLanes(p, n), 0, len)
  {
    hide DecodeLanes, ParsedLanes, Views;
    last := [];
    if len <= 0 {
      return;
    }
    var x, pos, end := ReadLanes(p, n);
    last := DecodeSteps(cb, p, x, pos, end, len, symOut);
  }

  // The states of the header, and where each lane's substream begins and ends.
  method ReadLanes(p: seq<byte>, n: nat) returns (x: seq<nat>, pos: seq<nat>, end: seq<nat>)
    requires WellFormed(p, n)
    ensures |x| == |pos| == |end| == n && forall l :: 0 <= l < n ==> pos[l] <= end[l] <= |p|
    ensures Views(p, x, pos, end) == ParsedLanes(p, n)
  {
    hide WordsOf, LeValue;
    x, pos, end := [], [], [];
    var at := 6 * n;
    for l := 0 to n
      invariant |x| == |pos| == |end| == l && at == StreamStart(p, n, l)
      invariant forall j :: 0 <= j < l ==>
                  pos[j] <= end[j] <= |p| && LaneView(p, x[j], pos[j], end[j]) == ParsedLane(p, n, j)
    {
      StartMono(p, n, l + 1, n);
      x := x + [LeValue(p[4 * l..4 * l + 4])];
      pos := pos + [at];
      at := at + LeValue(p[4 * n + 2 * l..4 * n + 2 * l + 2]);
      end := end + [at];
    }
  }

  ghost function Views(p: seq<byte>, x: seq<nat>, pos: seq<nat>, end: seq<nat>): (v: seq<Lane>)
    requires |x| == |pos| == |end| && forall l :: 0 <= l < |x| ==> pos[l] <= end[l] <= |p|
    ensures |v| == |x|
  {
    seq(|x|, l requires 0 <= l < |x| => LaneView(p, x[l], pos[l], end[l]))
  }

  ghost predicate OnTrack(cb: Codebook, goal: (seq<nat>, seq<Lane>), done: seq<nat>, lanes: seq<Lane>, len: nat) {
    && ValidBook(cb) && |lanes| > 0 && |done| <= len
    && goal.0 == done + DecodeLanes(cb, lanes, |done|, len).0
    && goal.1 == DecodeLanes(cb, lanes, |done|, len).1
  }

  lemma StayOnTrack(cb: Codebook, goal: (seq<nat>, seq<Lane>), done: seq<nat>, lanes: seq<Lane>, len: nat)
    requires |done| < len && OnTrack(cb, goal, done, lanes, len)
    ensures var l := |done| % |lanes|;
            OnTrack(cb, goal, done + [Pop(cb, lanes[l]).0], lanes[l := Pop(cb, lanes[l]).1], len)
  {
    var l := |done| % |lanes|;
    var (s, lane) := Pop(cb, lanes[l]);
    var rest := DecodeLanes(cb, lanes[l := lane], |done| + 1, len);
    assert done + ([s] + rest.0) == (done + [s]) + rest.0;
  }

  lemma Arrived(cb: Codebook, goal: (seq<nat>, seq<Lane>), done: seq<nat>, lanes: seq<Lane>, len: nat)
    requires |done| == len && OnTrack(cb, goal, done, lanes, len)
    ensures goal == (done, lanes)
  {
    assert done + [] == done;
  }

  lemma ViewsUpdate(p: seq<byte>, x: seq<nat>, pos: seq<nat>, end: seq<nat>, l: nat, x': nat, pos': nat)
    requires |x| == |pos| == |end| && l < |x| && pos' <= end[l]
    requires forall l :: 0 <= l < |x| ==> pos[l] <= end[l] <= |p|
    ensures Views(p, x, pos, end)[l] == LaneView(p, x[l], pos[l], end[l])
    ensures Views(p, x[l := x'], pos[l := pos'], end) == Views(p, x, pos, end)[l := LaneView(p, x', pos', end[l])]
  {
    hide LaneView;
  }

  // One symbol from one lane, which then refills.
  method StepLane(cb: Codebook, p: seq<byte>, x: nat, pos: nat, end: nat) returns (s: nat, x': nat, pos': nat)
    requires ValidBook(cb) && pos <= end <= |p|
    ensures pos' <= end && Pop(cb, LaneView(p, x, pos, end)) == (s, LaneView(p, x', pos', end))
  {
    hide ValidBook, Unfold;
    var y;
    s, y := UnfoldState(cb, x);
    x', pos' := RefillLane(p, y, pos, end);
  }

  method DecodeSteps(cb: Codebook, p: seq<byte>, x0: seq<nat>, pos0: seq<nat>, end: seq<nat>, len: nat, symOut: array<nat>)
    returns (ghost last: seq<Lane>)
    requires ValidBook(cb) && |x0| == |pos0| == |end| > 0 && len <= symOut.Length
    requires forall l :: 0 <= l < |x0| ==> pos0[l] <= end[l] <= |p|
    modifies symOut
    ensures (symOut[..len], last) == DecodeLanes(cb, Views(p, x0, pos0, end), 0, len)
  {
    var x, pos := x0, pos0;
    ghost var goal := DecodeLanes(cb, Views(p, x0, pos0, end), 0, len);
    ghost var done := [];
    assert goal.0 == [] + goal.0;
    hide DecodeLanes, OnTrack, Views, Pop, Unfold, ValidBook;
    for k := 0 to len
      invariant |x| == |pos| == |end|
      invariant forall l :: 0 <= l < |x| ==> pos[l] <= end[l] <= |p|
      invariant OnTrack(cb, goal, done, Views(p, x, pos, end), len)
      invariant |done| == k && forall j :: 0 <= j < k ==> symOut[j] == done[j]
    {
      var l := k % |x|;
      ghost var views := Views(p, x, pos, end);
      StayOnTrack(cb, goal, done, views, len);
      var s, x', pos' := StepLane(cb, p, x[l], pos[l], end[l]);
      ViewsUpdate(p, x, pos, end, l, x', pos');
      x, pos := x[l := x'], pos[l := pos'];
      done := done + [s];
      symOut[k] := s;
    }
    last := Views(p, x, pos, end);
    Arrived(cb, goal, done, last, len);
    assert symOut[..len] == done;
  }

  // The slot lookup and the multiply that step a lane back.
  method UnfoldState(cb: Codebook, x: nat) returns (s: nat, y: nat)
    requires ValidBook(cb)
    ensures (s, y) == Unfold(cb, x)
  {
    var slot := x % MTOTAL;
    s := cb.slot2sym[slot];
    assert InRange(cb, s, slot);
    y := cb.freq[s] * (x / MTOTAL) + (slot - cb.cum[s]);
  }
}
