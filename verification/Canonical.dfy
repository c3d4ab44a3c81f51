/** Canonical Huffman codes (section 3.2.2 of RFC 1951) and the wide lookup table that decodes
    them, as functions of the code lengths alone. Lengths are indexed by symbol, 0 means absent,
    and d is any bound on the lengths (15 in the source): weights are scaled by 2^d. */
module Canonical {
  import opened Arith
  import opened Bits

  type Lengths = seq<nat>

  ghost predicate Bounded(len: Lengths, d: nat) {
    forall t :: 0 <= t < |len| ==> len[t] <= d
  }

  predicate Present(len: Lengths, s: nat) {
    s < |len| && len[s] > 0
  }

  function PresentCount(len: Lengths, k: nat): nat
    requires k <= |len|
  {
    if k == 0 then 0 else PresentCount(len, k - 1) + (if len[k - 1] > 0 then 1 else 0)
  }

  function MaxLen(len: Lengths, k: nat): (m: nat)
    requires k <= |len|
    ensures forall t :: 0 <= t < k ==> len[t] <= m
    ensures m == 0 || exists t :: 0 <= t < k && len[t] == m
  {
    if k == 0 then 0 else
      var m := MaxLen(len, k - 1);
      if len[k - 1] > m then len[k - 1] else m
  }

  // The width of the lookup window: the longest code, at least one bit.
  function Width(len: Lengths): nat {
    var m := MaxLen(len, |len|);
    if m > 0 then m else 1
  }

  // The share of the code space taken by symbol t, in units of 2^-d.
  ghost function Weight(len: Lengths, t: nat, d: nat): nat
    requires t < |len| && Bounded(len, d)
  {
    if len[t] == 0 then 0 else Pow2(d - len[t])
  }

  ghost function KraftTo(len: Lengths, k: nat, d: nat): nat
    requires k <= |len| && Bounded(len, d)
  {
    if k == 0 then 0 else KraftTo(len, k - 1, d) + Weight(len, k - 1, d)
  }

  // The Kraft sum in units of 2^-d: a complete code has exactly 2^d.
  ghost function Kraft(len: Lengths, d: nat): nat
    requires Bounded(len, d)
  {
    KraftTo(len, |len|, d)
  }

  // Canonical order: shorter codes first, then by symbol.
  predicate Before(len: Lengths, a: nat, b: nat)
    requires a < |len| && b < |len|
  {
    len[a] > 0 && len[b] > 0 && (len[a] < len[b] || (len[a] == len[b] && a < b))
  }

  ghost function StartTo(len: Lengths, s: nat, k: nat, d: nat): nat
    requires s < |len| && k <= |len| && Bounded(len, d)
  {
    if k == 0 then 0 else
      StartTo(len, s, k - 1, d) + (if Before(len, k - 1, s) then Weight(len, k - 1, d) else 0)
  }

  // Where the code space of s begins: after every symbol ordered before it.
  ghost function Start(len: Lengths, s: nat, d: nat): nat
    requires s < |len| && Bounded(len, d)
  {
    StartTo(len, s, |len|, d)
  }

  // Advancing from s to a later symbol t moves the start past all of s's share.
  lemma {:induction false} StartAdvance(len: Lengths, s: nat, t: nat, k: nat, d: nat)
    requires s < |len| && t < |len| && k <= |len| && Bounded(len, d) && Before(len, s, t)
    ensures StartTo(len, t, k, d) >= StartTo(len, s, k, d) + (if s < k then Weight(len, s, d) else 0)
    ensures StartTo(len, t, k, d) <= KraftTo(len, k, d)
    ensures t < k ==> StartTo(len, t, k, d) + Weight(len, t, d) <= KraftTo(len, k, d)
    ensures (forall u :: 0 <= u < |len| && Before(len, u, t) ==> u == s || Before(len, u, s)) ==>
              StartTo(len, t, k, d) == StartTo(len, s, k, d) + (if s < k then Weight(len, s, d) else 0)
  {
    if k > 0 {
      StartAdvance(len, s, t, k - 1, d);
    }
  }

  lemma {:induction false} StartFits(len: Lengths, s: nat, k: nat, d: nat)
    requires s < |len| && k <= |len| && Bounded(len, d)
    ensures StartTo(len, s, k, d) + (if s < k then Weight(len, s, d) else 0) <= KraftTo(len, k, d)
    ensures (forall u :: 0 <= u < |len| ==> !Before(len, u, s)) ==> StartTo(len, s, k, d) == 0
  {
    if k > 0 {
      StartFits(len, s, k - 1, d);
    }
  }

  // The low n bits of x, most significant first.
  function MsbBits(x: nat, n: nat): (b: BitString)
    ensures |b| == n
  {
    if n == 0 then [] else MsbBits(x / 2, n - 1) + [x % 2 == 1]
  }

  lemma {:induction false} MsbBitsInjective(x: nat, y: nat, n: nat)
    requires x < Pow2(n) && y < Pow2(n) && MsbBits(x, n) == MsbBits(y, n)
    ensures x == y
  {
    if n > 0 {
      var a, b := MsbBits(x, n), MsbBits(y, n);
      assert a[..n - 1] == MsbBits(x / 2, n - 1) && b[..n - 1] == MsbBits(y / 2, n - 1);
      assert a[n - 1] == b[n - 1];
      MsbBitsInjective(x / 2, y / 2, n - 1);
    }
  }

  lemma {:induction false} MsbBitsPrefix(x: nat, n: nat, k: nat)
    requires k <= n
    ensures MsbBits(x, n)[..k] == MsbBits(Shr(x, n - k), k)
  {
    if k < n {
      MsbBitsPrefix(x / 2, n - 1, k);
      assert MsbBits(x, n)[..k] == MsbBits(x / 2, n - 1)[..k];
    } else {
      assert MsbBits(x, n)[..n] == MsbBits(x, n);
    }
  }

  // The canonical code of s as a number.
  ghost function Code(len: Lengths, s: nat, d: nat): nat
    requires s < |len| && Bounded(len, d)
  {
    Shr(Start(len, s, d), d - len[s])
  }

  // The rules of section 3.2.2 of RFC 1951: the first code is 0; codes of one length follow one another
  // in the order of their symbols; and longer codes come behind shorter ones, extended by zeros.
  lemma FirstCode(len: Lengths, s: nat, d: nat)
    requires s < |len| && Bounded(len, d) && len[s] > 0
    requires forall u :: 0 <= u < |len| && len[u] > 0 ==> len[s] < len[u] || (len[s] == len[u] && s <= u)
    ensures Code(len, s, d) == 0
  {
    StartFits(len, s, |len|, d);
    ShlZero(d - len[s]);
    ShrOfShl(0, d - len[s]);
  }

  lemma NextCode(len: Lengths, s: nat, t: nat, d: nat)
    requires s < t < |len| && Bounded(len, d) && len[s] == len[t] > 0
    requires forall u :: s < u < t ==> len[u] != len[s]
    ensures Code(len, t, d) == Code(len, s, d) + 1
  {
    var e := d - len[s];
    StartAdvance(len, s, t, |len|, d);
    var c := StartAligned(len, s, |len|, d);
    ShlPow2(0, e);
    ShlAdd(c, 1, e);
    ShrOfShl(c, e);
    ShrOfShl(c + 1, e);
  }

  lemma LongerCode(len: Lengths, s: nat, t: nat, d: nat)
    requires s < |len| && t < |len| && Bounded(len, d) && 0 < len[s] < len[t]
    ensures Code(len, t, d) >= Shl(Code(len, s, d) + 1, len[t] - len[s])
  {
    StartAdvance(len, s, t, |len|, d);
    hide Shl, Shr, Pow2, StartTo, KraftTo;
    var k, m := d - len[s], d - len[t];
    var c := StartAligned(len, s, |len|, d);
    var e := StartAligned(len, t, |len|, d);
    ShlOne(k);
    ShlAdd(c, 1, k);
    ShrOfShl(c, k);
    ShrOfShl(e, m);
    ShlShl(c + 1, len[t] - len[s], m);
    ShlMonotone(Shl(c + 1, len[t] - len[s]), e, m);
  }

  lemma ShlOne(k: nat)
    ensures Shl(1, k) == Pow2(k)
  {
    ShlPow2(0, k);
  }

  lemma ShlMonotone(x: nat, y: nat, m: nat)
    requires Shl(x, m) <= Shl(y, m)
    ensures x <= y
  {
    hide Shl;
    ShlIsMul(x, m);
    ShlIsMul(y, m);
    CancelLe(Pow2(m), x, y);
  }

  lemma ShrOfShl(x: nat, k: nat)
    ensures Shr(Shl(x, k), k) == x
  {
    ShrLowUnique(Shl(x, k), k, x, 0);
  }

  // The canonical code of s in stream order: most significant bit first.
  ghost function Codeword(len: Lengths, s: nat, d: nat): (w: BitString)
    requires s < |len| && Bounded(len, d)
    ensures |w| == len[s]
  {
    MsbBits(Code(len, s, d), len[s])
  }

  ghost predicate Matches(len: Lengths, s: nat, w: BitString, d: nat)
    requires s < |len| && Bounded(len, d)
  {
    0 < len[s] && StartsWith(w, Codeword(len, s, d))
  }

  // Each start is a whole multiple of its symbol's share.
  lemma {:induction false} StartAligned(len: Lengths, s: nat, k: nat, d: nat) returns (c: nat)
    requires s < |len| && k <= |len| && Bounded(len, d) && len[s] > 0
    ensures StartTo(len, s, k, d) == Shl(c, d - len[s])
  {
    var e := d - len[s];
    if k == 0 {
      ShlZero(e);
      c := 0;
    } else {
      c := StartAligned(len, s, k - 1, d);
      if Before(len, k - 1, s) {
        var g := len[s] - len[k - 1];
        ShlPow2(g, e);
        ShlAdd(c, Pow2(g), e);
        c := c + Pow2(g);
      }
    }
  }

  lemma CodeIsStart(len: Lengths, s: nat, d: nat)
    requires s < |len| && Bounded(len, d) && len[s] > 0
    ensures Start(len, s, d) == Shl(Code(len, s, d), d - len[s])
  {
    var c := StartAligned(len, s, |len|, d);
    ShrLowUnique(Start(len, s, d), d - len[s], c, 0);
  }

  // Without oversubscription a code fits in its length.
  lemma CodeFits(len: Lengths, s: nat, d: nat)
    requires s < |len| && Bounded(len, d) && len[s] > 0 && Kraft(len, d) <= Pow2(d)
    ensures Code(len, s, d) < Pow2(len[s])
  {
    StartFits(len, s, |len|, d);
    assert Weight(len, s, d) >= 1;
    ShrBound(Start(len, s, d), d - len[s], len[s]);
  }

  // Canonical codes are prefix-free whenever the Kraft sum is at most one.
  lemma PrefixFree(len: Lengths, s: nat, t: nat, w: BitString, d: nat)
    requires s < |len| && t < |len| && Bounded(len, d) && Kraft(len, d) <= Pow2(d)
    requires Matches(len, s, w, d) && Matches(len, t, w, d)
    ensures s == t
  {
    if s != t && len[s] <= len[t] {
      NoPrefix(len, s, t, w, d);
    } else if s != t {
      NoPrefix(len, t, s, w, d);
    }
  }

  lemma NoPrefix(len: Lengths, s: nat, t: nat, w: BitString, d: nat)
    requires s < |len| && t < |len| && Bounded(len, d) && Kraft(len, d) <= Pow2(d)
    requires Matches(len, s, w, d) && len[s] <= len[t] && s != t
    ensures !Matches(len, t, w, d)
  {
    if !Matches(len, t, w, d) {
      return;
    }
    var g, e := len[t] - len[s], d - len[t];
    var cs, ct := Code(len, s, d), Code(len, t, d);
    CodeFits(len, s, d);
    CodeFits(len, t, d);
    CodeIsStart(len, s, d);
    CodeIsStart(len, t, d);
    assert Codeword(len, t, d)[..len[s]] == Codeword(len, s, d);
    MsbBitsPrefix(ct, len[t], len[s]);
    ShrBound(ct, g, len[s]);
    MsbBitsInjective(Shr(ct, g), cs, len[s]);
    ShrLow(ct, g);
    var r := Low(ct, g);
    // Start(t) lies inside the share of s.
    ShlAdd(r, Shl(cs, g), e);
    ShlShl(cs, g, e);
    assert Start(len, t, d) == Shl(r, e) + Start(len, s, d);
    ShlBound(r, e, g);
    assert Weight(len, s, d) == Pow2(e + g);
    if Before(len, s, t) {
      StartAdvance(len, s, t, |len|, d);
    } else {
      assert g == 0 && r == 0;
      ShlZero(e);
      StartAdvance(len, t, s, |len|, d);
    }
  }

  // ---- the lookup table ----

  // The table entry a window sees: the last symbol in ascending order whose code begins
  // the window, or (0, 0) where the table has a hole.
  ghost function LutScan(len: Lengths, w: BitString, k: nat, d: nat): (nat, nat)
    requires k <= |len| && Bounded(len, d)
  {
    if k == 0 then (0, 0)
    else if Matches(len, k - 1, w, d) then (k - 1, len[k - 1])
    else LutScan(len, w, k - 1, d)
  }

  // How many symbols below k claim window w.
  ghost function Claims(len: Lengths, w: BitString, k: nat, d: nat): nat
    requires k <= |len| && Bounded(len, d)
  {
    if k == 0 then 0 else Claims(len, w, k - 1, d) + (if Matches(len, k - 1, w, d) then 1 else 0)
  }

  // Every window of m bits is claimed by exactly one symbol: no hole and no collision.
  ghost predicate Tiles(len: Lengths, m: nat, d: nat)
    requires Bounded(len, d)
  {
    forall i: nat :: i < Pow2(m) ==> Claims(len, ToBits(i, m), |len|, d) == 1
  }

  lemma {:induction false} ClaimsNone(len: Lengths, w: BitString, k: nat, d: nat)
    requires k <= |len| && Bounded(len, d)
    ensures Claims(len, w, k, d) == 0 <==> forall s :: 0 <= s < k ==> !Matches(len, s, w, d)
  {
    if k > 0 {
      ClaimsNone(len, w, k - 1, d);
    }
  }

  lemma {:induction false} ClaimsAtMostOne(len: Lengths, w: BitString, k: nat, d: nat)
    requires k <= |len| && Bounded(len, d) && Kraft(len, d) <= Pow2(d)
    ensures Claims(len, w, k, d) <= 1
  {
    if k > 0 {
      ClaimsAtMostOne(len, w, k - 1, d);
      ClaimsNone(len, w, k - 1, d);
      if Matches(len, k - 1, w, d) {
        forall s | 0 <= s < k - 1
          ensures !Matches(len, s, w, d)
        {
          if Matches(len, s, w, d) {
            PrefixFree(len, s, k - 1, w, d);
          }
        }
      }
    }
  }

  // Among prefix-free codes the scan finds the symbol that matches.
  lemma {:induction false} LutScanFinds(len: Lengths, s: nat, w: BitString, k: nat, d: nat)
    requires s < k <= |len| && Bounded(len, d) && Kraft(len, d) <= Pow2(d)
    requires Matches(len, s, w, d)
    ensures LutScan(len, w, k, d) == (s, len[s])
  {
    if Matches(len, k - 1, w, d) {
      PrefixFree(len, s, k - 1, w, d);
    } else {
      LutScanFinds(len, s, w, k - 1, d);
    }
  }

  // Claims summed over the first n windows of m bits.
  ghost function ClaimSum(len: Lengths, k: nat, m: nat, n: nat, d: nat): nat
    requires k <= |len| && Bounded(len, d)
  {
    if n == 0 then 0 else ClaimSum(len, k, m, n - 1, d) + Claims(len, ToBits(n - 1, m), k, d)
  }

  ghost predicate StartsWith(b: BitString, w: BitString) {
    |w| <= |b| && b[..|w|] == w
  }

  // How many of the first n windows of m bits begin with w.
  ghost function PrefixHits(w: BitString, m: nat, n: nat): nat {
    if n == 0 then 0 else PrefixHits(w, m, n - 1) + (if StartsWith(ToBits(n - 1, m), w) then 1 else 0)
  }

  lemma {:induction false} PrefixHitsHalf(c: bool, w: BitString, m: nat, n: nat)
    ensures PrefixHits([c] + w, m + 1, 2 * n) == PrefixHits(w, m, n)
  {
    hide StartsWith, ToBits;
    if n > 0 {
      PrefixHitsHalf(c, w, m, n - 1);
      PrefixHitsTwo([c] + w, m + 1, 2 * (n - 1));
      WindowPair(n - 1, m);
      StartsWithCons(false, ToBits(n - 1, m), c, w);
      StartsWithCons(true, ToBits(n - 1, m), c, w);
    }
  }

  lemma WindowPair(n: nat, m: nat)
    ensures ToBits(2 * n, m + 1) == [false] + ToBits(n, m)
    ensures ToBits(2 * n + 1, m + 1) == [true] + ToBits(n, m)
  {
    assert 2 * n / 2 == n && (2 * n + 1) / 2 == n;
  }

  lemma PrefixHitsTwo(w: BitString, m: nat, n: nat)
    ensures PrefixHits(w, m, n + 2) == PrefixHits(w, m, n)
              + (if StartsWith(ToBits(n, m), w) then 1 else 0)
              + (if StartsWith(ToBits(n + 1, m), w) then 1 else 0)
  {
    assert PrefixHits(w, m, n + 1) == PrefixHits(w, m, n) + (if StartsWith(ToBits(n, m), w) then 1 else 0);
  }

  lemma StartsWithCons(b: bool, v: BitString, c: bool, w: BitString)
    ensures StartsWith([b] + v, [c] + w) <==> b == c && StartsWith(v, w)
  {
    if |w| <= |v| {
      assert ([b] + v)[..|w| + 1] == [b] + v[..|w|];
      assert ([b] + v[..|w|])[1..] == v[..|w|] && ([c] + w)[1..] == w;
    }
  }

  lemma {:induction false} PrefixHitsAll(w: BitString, m: nat)
    requires |w| <= m
    ensures PrefixHits(w, m, Pow2(m)) == Pow2(m - |w|)
  {
    hide PrefixHits;
    if w == [] {
      PrefixHitsEmpty(m, Pow2(m));
    } else {
      assert w == [w[0]] + w[1..];
      PrefixHitsHalf(w[0], w[1..], m - 1, Pow2(m - 1));
      PrefixHitsAll(w[1..], m - 1);
    }
  }

  lemma {:induction false} PrefixHitsEmpty(m: nat, n: nat)
    ensures PrefixHits([], m, n) == n
  {
    if n > 0 {
      PrefixHitsEmpty(m, n - 1);
    }
  }

  lemma {:induction false} ClaimSumStep(len: Lengths, k: nat, m: nat, n: nat, d: nat)
    requires 0 < k <= |len| && Bounded(len, d)
    ensures ClaimSum(len, k, m, n, d) == ClaimSum(len, k - 1, m, n, d)
              + (if len[k - 1] > 0 then PrefixHits(Codeword(len, k - 1, d), m, n) else 0)
  {
    if n > 0 {
      ClaimSumStep(len, k, m, n - 1, d);
    }
  }

  // Counted by symbol instead of by window, the claims add up to the Kraft sum.
  lemma {:induction false} ClaimSumIsKraft(len: Lengths, k: nat, m: nat, d: nat)
    requires k <= |len| && Bounded(len, d) && Bounded(len, m)
    ensures ClaimSum(len, k, m, Pow2(m), d) == KraftTo(len, k, m)
  {
    hide ClaimSum, PrefixHits, Codeword, Pow2;
    if k == 0 {
      ClaimSumZero(len, m, Pow2(m), d);
    } else {
      ClaimSumIsKraft(len, k - 1, m, d);
      ClaimSumStep(len, k, m, Pow2(m), d);
      if len[k - 1] > 0 {
        PrefixHitsAll(Codeword(len, k - 1, d), m);
      }
    }
  }

  lemma {:induction false} ClaimSumZero(len: Lengths, m: nat, n: nat, d: nat)
    requires Bounded(len, d)
    ensures ClaimSum(len, 0, m, n, d) == 0
  {
    if n > 0 {
      ClaimSumZero(len, m, n - 1, d);
    }
  }

  lemma {:induction false} ClaimSumOnes(len: Lengths, m: nat, n: nat, d: nat)
    requires Bounded(len, d)
    ensures (forall i: nat :: i < n ==> Claims(len, ToBits(i, m), |len|, d) == 1) ==>
              ClaimSum(len, |len|, m, n, d) == n
    ensures (forall i: nat :: i < n ==> Claims(len, ToBits(i, m), |len|, d) <= 1) ==>
              ClaimSum(len, |len|, m, n, d) <= n
    ensures (forall i: nat :: i < n ==> Claims(len, ToBits(i, m), |len|, d) <= 1)
              && ClaimSum(len, |len|, m, n, d) == n ==>
              forall i: nat :: i < n ==> Claims(len, ToBits(i, m), |len|, d) == 1
  {
    if n > 0 {
      ClaimSumOnes(len, m, n - 1, d);
    }
  }

  lemma {:induction false} KraftScale(len: Lengths, k: nat, d: nat, e: nat)
    requires k <= |len| && Bounded(len, d)
    ensures KraftTo(len, k, d + e) == Shl(KraftTo(len, k, d), e)
  {
    if k == 0 {
      ShlZero(e);
    } else {
      KraftScale(len, k - 1, d, e);
      ShlAdd(KraftTo(len, k - 1, d), Weight(len, k - 1, d), e);
      if len[k - 1] == 0 {
        ShlZero(e);
      } else {
        ShlPow2(d - len[k - 1], e);
      }
    }
  }

  lemma KraftOneAtAnyScale(len: Lengths, m: nat, d: nat)
    requires Bounded(len, m) && m <= d
    ensures Kraft(len, m) == Pow2(m) <==> Kraft(len, d) == Pow2(d)
  {
    KraftScale(len, |len|, m, d - m);
    ShlPow2(m, d - m);
    ShrLowUnique(Kraft(len, d), d - m, Kraft(len, m), 0);
    ShrLowUnique(Pow2(d), d - m, Pow2(m), 0);
  }

  // The Kraft sum is one exactly when filling a table of m-bit windows leaves no hole
  // and no collision.
  lemma TilesIffKraft(len: Lengths, m: nat, d: nat)
    requires Bounded(len, m) && m <= d
    ensures Tiles(len, m, d) <==> Kraft(len, d) == Pow2(d)
  {
    ClaimSumIsKraft(len, |len|, m, d);
    ClaimSumOnes(len, m, Pow2(m), d);
    KraftOneAtAnyScale(len, m, d);
    if Kraft(len, d) == Pow2(d) {
      forall i: nat | i < Pow2(m)
        ensures Claims(len, ToBits(i, m), |len|, d) <= 1
      {
        ClaimsAtMostOne(len, ToBits(i, m), |len|, d);
      }
    }
  }
}
